/**
 * What one fragment does to a peer's window: the invariant is kept, `oldest`
 * only moves forward, the fragment lands in the slot of its own routing
 * number, and the slot ends delivered or in progress. Plus concrete
 * scenarios (the first of two fragments, an eviction, a late drop, a used-up
 * tombstone) and the round trip through a fresh window.
 */
module WindowProperties {
  import opened Primitives
  import opened RoutingNumbers
  import opened Messages
  import opened TransportMessagesIterators
  import opened PendingMessages
  import opened ReassemblyRoundTrip
  import opened Windows

  /** A number that is not older than `oldest` lies less than half the space ahead of it. */
  lemma NotLateIsNear(oldest: RoutingNumber, rn: RoutingNumber)
    requires !Lt(rn, oldest)
    ensures Sub(rn, oldest) < HALF
  {
    if rn != oldest {
      assert Distance(oldest, rn) == MODULUS - Distance(rn, oldest);
    }
  }

  /** How far the window advances for a fragment numbered `rn`. */
  function ShiftFor(w: Window, rn: RoutingNumber): (shift: nat)
    ensures shift < HALF
  {
    var diff := Sub(rn, w.oldest);
    if Lt(rn, w.oldest) || diff < MAX_PENDING_MESSAGES then 0
    else
      NotLateIsNear(w.oldest, rn);
      diff - MAX_PENDING_MESSAGES + 1
  }

  /**
   * Making room: `oldest` advances by `diff - 4` when `diff = rn - oldest` is
   * at least 5, the window returned is `Advance` by that shift and the fragment
   * then goes to slot 4; otherwise nothing moves and it goes to slot `diff`.
   * Either way the slot's number is `rn`.
   */
  lemma MakeRoomPlacesFragment(w: Window, rn: RoutingNumber)
    requires WellFormed(w) && !Lt(rn, w.oldest)
    ensures var (w1, index) := MakeRoom(w, rn);
      var diff := Sub(rn, w.oldest);
      && w1.oldest == AddAssign(w.oldest, ShiftFor(w, rn))
      && index == (if diff >= MAX_PENDING_MESSAGES then MAX_PENDING_MESSAGES - 1 else diff)
      && AddAssign(w1.oldest, index) == rn
      && (diff < MAX_PENDING_MESSAGES ==> w1 == w)
      && (diff >= MAX_PENDING_MESSAGES ==> w1 == Advance(w, diff - MAX_PENDING_MESSAGES + 1))
  {
    NotLateIsNear(w.oldest, rn);
    var diff := Sub(rn, w.oldest);
    AddAfterSub(rn, w.oldest);
    if diff >= MAX_PENDING_MESSAGES {
      var shift: u16 := diff - MAX_PENDING_MESSAGES + 1;
      assert MakeRoom(w, rn) == (Advance(w, shift), MAX_PENDING_MESSAGES - 1);
      assert Advance(w, shift).oldest == AddAssign(w.oldest, shift);
      AddAssignTwice(w.oldest, shift, MAX_PENDING_MESSAGES - 1);
      assert WrappingAdd(shift, MAX_PENDING_MESSAGES - 1) == diff;
    } else {
      assert MakeRoom(w, rn) == (w, diff);
    }
  }

  /**
   * Shifting: the first `min(shift, 5)` slots are evicted, each partial message
   * among them adding one empty buffer to the pool, the slots after them move
   * to the front and the vacated tail is empty.
   */
  lemma AdvanceEvicts(w: Window, shift: u16)
    requires WellFormed(w) && 1 <= shift
    ensures var r := Advance(w, shift);
      && r.oldest == AddAssign(w.oldest, shift)
      && r.pool == w.pool + Recycled(w.slots[..Min(shift, MAX_PENDING_MESSAGES)])
      && (forall i :: 0 <= i < MAX_PENDING_MESSAGES ==>
            r.slots[i] == if i + shift < MAX_PENDING_MESSAGES then w.slots[i + shift] else NotReceivedSlot)
  {
  }

  lemma AdvancePreservesValid(w: Window, shift: u16)
    requires WindowValid(w) && 1 <= shift
    ensures WindowValid(Advance(w, shift))
  {
    var r := Advance(w, shift);
    AdvanceEvicts(w, shift);
    forall i | 0 <= i < MAX_PENDING_MESSAGES && r.slots[i].InProgressSlot?
      ensures r.slots[i].reassembly.routingNumber == AddAssign(r.oldest, i)
    {
      AddAssignTwice(w.oldest, shift, i);
    }
  }

  /** A fresh reassembler built for the fragment's own number sits validly in its slot. */
  lemma DeliverPreservesValid<Msg>(w: Window, index: nat, p: Reassembly, m: TransportMessage, decode: seq<byte> -> Option<Msg>)
    requires WellFormed(w) && index < MAX_PENDING_MESSAGES
    requires forall k :: 0 <= k < |w.pool| ==> w.pool[k] == []
    requires forall i :: 0 <= i < MAX_PENDING_MESSAGES && i != index && w.slots[i].InProgressSlot? ==>
               w.slots[i].reassembly.routingNumber == AddAssign(w.oldest, i) && ReassemblyValid(w.slots[i].reassembly)
    requires p.routingNumber == AddAssign(w.oldest, index) && ReassemblyValid(p)
    ensures WindowValid(Deliver(w, index, p, m, decode).0)
  {
    AssemblePreservesValid(p, m);
  }

  /** Making room keeps the window invariant. */
  lemma MakeRoomPreservesValid(w: Window, rn: RoutingNumber)
    requires WindowValid(w) && !Lt(rn, w.oldest)
    ensures WindowValid(MakeRoom(w, rn).0)
  {
    var diff := Sub(rn, w.oldest);
    if diff >= MAX_PENDING_MESSAGES {
      AdvancePreservesValid(w, diff - MAX_PENDING_MESSAGES + 1);
    }
  }

  /** Handing a fragment to the slot of its own routing number keeps the window invariant. */
  lemma TakeAndDeliverPreservesValid<Msg>(w: Window, index: nat, m: TransportMessage, decode: seq<byte> -> Option<Msg>)
    requires WindowValid(w) && index < MAX_PENDING_MESSAGES && AddAssign(w.oldest, index) == m.routingNumber
    ensures WindowValid(TakeAndDeliver(w, index, m, decode).0)
  {
    var w2 := w.(slots := w.slots[index := NotReceivedSlot]);
    match w.slots[index]
    case FullyHandledSlot =>
    case NotReceivedSlot =>
      var buffer := if |w2.pool| > 0 then w2.pool[0] else [];
      var pool := if |w2.pool| > 0 then w2.pool[1..] else w2.pool;
      NewReassemblyValid(m.routingNumber, m.total, buffer);
      DeliverPreservesValid(w2.(pool := pool), index, NewReassembly(m.routingNumber, m.total, buffer), m, decode);
    case InProgressSlot(p) =>
      DeliverPreservesValid(w2, index, p, m, decode);
  }

  /** One fragment keeps the window invariant. */
  lemma WindowAbsorbPreservesValid<Msg>(w: Window, m: TransportMessage, decode: seq<byte> -> Option<Msg>)
    requires WindowValid(w)
    ensures WindowValid(WindowAbsorb(w, m, decode).0)
  {
    if !Lt(m.routingNumber, w.oldest) {
      var (w1, index) := MakeRoom(w, m.routingNumber);
      MakeRoomPlacesFragment(w, m.routingNumber);
      MakeRoomPreservesValid(w, m.routingNumber);
      TakeAndDeliverPreservesValid(w1, index, m, decode);
    }
  }

  /** `oldest` never moves backwards: it stays, or moves to a number greater in the circular order. */
  lemma OldestMovesForward<Msg>(w: Window, m: TransportMessage, decode: seq<byte> -> Option<Msg>)
    requires WellFormed(w)
    ensures var r := WindowAbsorb(w, m, decode).0;
      && r.oldest == AddAssign(w.oldest, ShiftFor(w, m.routingNumber))
      && (r.oldest == w.oldest || Lt(w.oldest, r.oldest))
  {
    if !Lt(m.routingNumber, w.oldest) {
      MakeRoomPlacesFragment(w, m.routingNumber);
      var shift := ShiftFor(w, m.routingNumber);
      if shift > 0 {
        CmpFollowsEmissionOrder(w.oldest, shift);
      }
    }
  }

  /**
   * Where the fragment goes and how its slot ends: nothing but the slot of
   * its own routing number changes after the shift; a delivered slot drops
   * the fragment and is left empty; otherwise the reassembler (the slot's
   * own, or a new one on the first pooled buffer) gets the fragment, and the
   * slot ends delivered when it completes, whether or not decoding succeeds,
   * or in progress with the new reassembler state.
   */
  lemma WindowAbsorbSlot<Msg>(w: Window, m: TransportMessage, decode: seq<byte> -> Option<Msg>)
    requires WellFormed(w) && !Lt(m.routingNumber, w.oldest)
    ensures var (w1, index) := MakeRoom(w, m.routingNumber);
      var r := WindowAbsorb(w, m, decode);
      && AddAssign(r.0.oldest, index) == m.routingNumber
      && r.0.oldest == w1.oldest
      && r.0.pool == (if w1.slots[index].NotReceivedSlot? && |w1.pool| > 0 then w1.pool[1..] else w1.pool)
      && (forall i :: 0 <= i < MAX_PENDING_MESSAGES && i != index ==> r.0.slots[i] == w1.slots[i])
      && (w1.slots[index].FullyHandledSlot? ==>
            r.1 == None && r.0 == w1.(slots := w1.slots[index := NotReceivedSlot]))
      && (!w1.slots[index].FullyHandledSlot? ==>
            var p := if w1.slots[index].InProgressSlot? then w1.slots[index].reassembly
                     else NewReassembly(m.routingNumber, m.total, if |w1.pool| > 0 then w1.pool[0] else []);
            var (p', bytes) := Assemble(p, m);
            && (bytes.Some? ==> r.0.slots[index] == FullyHandledSlot && r.1 == decode(bytes.value))
            && (bytes.None? ==> r.0.slots[index] == InProgressSlot(p') && r.1 == None))
  {
    MakeRoomPlacesFragment(w, m.routingNumber);
  }

  /** A one-fragment message completes on its only fragment, appended to the reassembler's buffer. */
  lemma SingleFragmentCompletes(m: TransportMessage, buffer: seq<byte>)
    requires m.offset == 0 && m.total == 1
    ensures Assemble(NewReassembly(m.routingNumber, 1, buffer), m).1 == Some(buffer + m.payload)
  {
    var p := NewReassembly(m.routingNumber, 1, buffer);
    assert p.notReceivedParts == {0};
    var r := Assemble(p, m);
    assert r.0.binary == buffer + m.payload;
  }

  /**
   * The tombstone is used up by the first duplicate: it is dropped, but the
   * slot is left empty, so a later copy of a one-fragment message is decoded
   * and delivered again.
   */
  lemma TombstoneUsedUp<Msg>(w: Window, m: TransportMessage, decode: seq<byte> -> Option<Msg>)
    requires WindowValid(w) && w.slots[0] == FullyHandledSlot && m.routingNumber == w.oldest
    requires m.total == 1 && m.offset == 0
    ensures var (w', r) := WindowAbsorb(w, m, decode);
      && r == None && w' == w.(slots := w.slots[0 := NotReceivedSlot])
      && WindowAbsorb(w', m, decode).1 == decode(m.payload)
  {
    var rn := m.routingNumber;
    assert !Lt(rn, rn) && Sub(rn, rn) == 0;
    assert MakeRoom(w, rn) == (w, 0);
    var w' := w.(slots := w.slots[0 := NotReceivedSlot]);
    assert MakeRoom(w', rn) == (w', 0);
    var buffer := if |w'.pool| > 0 then w'.pool[0] else [];
    assert buffer == [];
    SingleFragmentCompletes(m, buffer);
    assert buffer + m.payload == m.payload;
  }

  /** `new`: `oldest` is the given number, all five slots are empty and the pool is empty. */
  lemma NewWindowIsEmpty(rn: RoutingNumber)
    ensures var w := NewWindow(rn);
      && w.oldest == rn && w.pool == []
      && forall i :: 0 <= i < MAX_PENDING_MESSAGES ==> w.slots[i] == NotReceivedSlot
  {
  }

  /** The first fragment of a two-fragment message, at `oldest`, starts its reassembler in slot 0. */
  lemma FirstOfTwoScenario<Msg>(v: u8, x: seq<byte>, decode: seq<byte> -> Option<Msg>)
    ensures var r := WindowAbsorb(NewWindow(New(100)), TransportMessage(v, New(100), 0, 2, x), decode);
      && r.1 == None && r.0.oldest == New(100) && r.0.pool == []
      && r.0.slots[0].InProgressSlot? && r.0.slots[1..] == NotReceivedSlots(4)
  {
    var w0 := NewWindow(New(100));
    assert !Lt(New(100), New(100)) && Sub(New(100), New(100)) == 0;
    assert MakeRoom(w0, New(100)) == (w0, 0);
    assert NewReassembly(New(100), 2, []).notReceivedParts == {0, 1};
  }

  /** Advancing a window whose only occupied slot is a partial message at slot 0 by 2 recycles its buffer. */
  lemma EvictPartialScenario(w: Window)
    requires WellFormed(w) && w.pool == [] && w.slots[0].InProgressSlot? && w.slots[1..] == NotReceivedSlots(4)
    ensures Advance(w, 2) == Window(AddAssign(w.oldest, 2), NotReceivedSlots(5), [[]])
  {
    assert w.slots[..2] == [w.slots[0], NotReceivedSlot];
    assert w.slots[..2][..1] == [w.slots[0]];
    assert [w.slots[0]][..0] == [];
    assert Recycled(w.slots[..2]) == [[]];
  }

  /** The one-fragment message 106 arriving at that window moves it to 102 and is delivered at once. */
  lemma OneFragmentAfterEviction<Msg>(w1: Window, m: TransportMessage, decode: seq<byte> -> Option<Msg>)
    requires WellFormed(w1) && w1.oldest == New(100) && w1.pool == []
    requires w1.slots[0].InProgressSlot? && w1.slots[1..] == NotReceivedSlots(4)
    requires m.routingNumber == New(106) && m.offset == 0 && m.total == 1
    ensures ShiftFor(w1, New(106)) == 2
    ensures var (w2, r2) := WindowAbsorb(w1, m, decode);
      && w2.oldest == New(102) && w2.pool == []
      && w2.slots == NotReceivedSlots(4) + [FullyHandledSlot]
      && r2 == decode(m.payload)
  {
    EvictPartialScenario(w1);
    var a := Advance(w1, 2);
    assert a.oldest == New(102);
    assert !Lt(New(106), New(100)) && Sub(New(106), New(100)) == 6;
    assert MakeRoom(w1, New(106)) == (a, 4);
    var p := NewReassembly(New(106), 1, []);
    SingleFragmentCompletes(m, []);
    assert [] + m.payload == m.payload;
    var a2 := a.(slots := a.slots[4 := NotReceivedSlot], pool := []);
    assert WindowAbsorb(w1, m, decode) == Deliver(a2, 4, p, m, decode);
    assert NotReceivedSlots(5)[4 := FullyHandledSlot] == NotReceivedSlots(4) + [FullyHandledSlot];
  }

  /**
   * Eviction: with `oldest = 100`, fragment 0 of 2 for number 100 stays
   * partial; then the one-fragment message 106 arrives. The window shifts by
   * 2, the buffer of 100 is recycled (and at once reused for 106), `oldest`
   * becomes 102 and the call returns the decoding of 106's payload.
   */
  lemma EvictionScenario<Msg>(v: u8, x: seq<byte>, y: seq<byte>, decode: seq<byte> -> Option<Msg>)
    ensures var (w1, r1) := WindowAbsorb(NewWindow(New(100)), TransportMessage(v, New(100), 0, 2, x), decode);
      var (w2, r2) := WindowAbsorb(w1, TransportMessage(v, New(106), 0, 1, y), decode);
      && r1 == None && w1.slots[0].InProgressSlot?
      && ShiftFor(w1, New(106)) == 2
      && Advance(w1, 2).pool == [[]]
      && w2.oldest == New(102) && w2.pool == []
      && w2.slots == NotReceivedSlots(4) + [FullyHandledSlot]
      && r2 == decode(y)
  {
    FirstOfTwoScenario(v, x, decode);
    var w1 := WindowAbsorb(NewWindow(New(100)), TransportMessage(v, New(100), 0, 2, x), decode).0;
    EvictPartialScenario(w1);
    OneFragmentAfterEviction(w1, TransportMessage(v, New(106), 0, 1, y), decode);
  }

  /** A late fragment: with `oldest = 200`, number 150 changes nothing and returns nothing. */
  lemma LateDropScenario<Msg>(w: Window, m: TransportMessage, decode: seq<byte> -> Option<Msg>)
    requires WellFormed(w) && w.oldest == New(200) && m.routingNumber == New(150)
    ensures WindowAbsorb(w, m, decode) == (w, None)
  {
    assert Lt(New(150), New(200));
  }

  /** Feed `ms` into the window one after the other; the result is the outcome of the last call. */
  function WindowFeedAll<Msg>(w: Window, ms: seq<TransportMessage>, decode: seq<byte> -> Option<Msg>): (r: (Window, Option<Msg>))
    requires WellFormed(w)
    ensures WellFormed(r.0)
  {
    if ms == [] then (w, None) else WindowAbsorb(WindowFeedAll(w, ms[..|ms| - 1], decode).0, ms[|ms| - 1], decode)
  }

  /**
   * One fragment for the number at `oldest`, when slot 0 is the only one in
   * use and the pool is empty: it goes to the reassembler of slot 0 (a new one
   * on an empty buffer if the slot is empty) and nothing else changes.
   */
  lemma AbsorbAtOldest<Msg>(w: Window, p: Reassembly, m: TransportMessage, decode: seq<byte> -> Option<Msg>)
    requires WellFormed(w) && w.pool == [] && w.slots[1..] == NotReceivedSlots(4)
    requires m.routingNumber == w.oldest
    requires w.slots[0] == InProgressSlot(p) || (w.slots[0] == NotReceivedSlot && p == NewReassembly(w.oldest, m.total, []))
    ensures var r := WindowAbsorb(w, m, decode);
      var (p', bytes) := Assemble(p, m);
      && r.0.oldest == w.oldest && r.0.pool == [] && r.0.slots[1..] == NotReceivedSlots(4)
      && (bytes.None? ==> r.0.slots[0] == InProgressSlot(p') && r.1 == None)
      && (bytes.Some? ==> r.0.slots[0] == FullyHandledSlot && r.1 == decode(bytes.value))
  {
    var rn := w.oldest;
    assert !Lt(rn, rn) && Sub(rn, rn) == 0;
    assert MakeRoom(w, rn) == (w, 0);
  }

  lemma {:induction false} WindowFeedAllStep<Msg>(w: Window, ms: seq<TransportMessage>, decode: seq<byte> -> Option<Msg>, k: nat)
    requires WellFormed(w) && 0 < k <= |ms|
    ensures WindowFeedAll(w, ms[..k], decode) == WindowAbsorb(WindowFeedAll(w, ms[..k - 1], decode).0, ms[k - 1], decode)
  {
    assert ms[..k][..k - 1] == ms[..k - 1];
  }

  /**
   * After `k` fragments of one routing number `rn` sent to a fresh window,
   * none of whose proper prefixes completed the message, slot 0 holds the
   * reassembler that fed them and the window gave what that reassembler gave.
   */
  lemma {:induction false} WindowFeedPrefix<Msg>(rn: RoutingNumber, total: u16, ms: seq<TransportMessage>,
                                                 decode: seq<byte> -> Option<Msg>, k: nat)
    requires 0 < k <= |ms|
    requires forall i :: 0 <= i < |ms| ==> ms[i].routingNumber == rn && ms[i].total == total
    requires forall j :: 0 < j < k ==> FeedAll(NewReassembly(rn, total, []), ms[..j]).1 == None
    ensures var local := FeedAll(NewReassembly(rn, total, []), ms[..k]);
      var r := WindowFeedAll(NewWindow(rn), ms[..k], decode);
      && r.0.oldest == rn && r.0.pool == [] && r.0.slots[1..] == NotReceivedSlots(4)
      && (local.1.None? ==> r.0.slots[0] == InProgressSlot(local.0) && r.1 == None)
      && (local.1.Some? ==> r.0.slots[0] == FullyHandledSlot && r.1 == decode(local.1.value))
  {
    var init := NewReassembly(rn, total, []);
    var m := ms[k - 1];
    WindowFeedAllStep(NewWindow(rn), ms, decode, k);
    FeedAllStep(init, ms, k);
    if k == 1 {
      assert ms[..0] == [];
      AbsorbAtOldest(NewWindow(rn), init, m, decode);
    } else {
      WindowFeedPrefix(rn, total, ms, decode, k - 1);
      AbsorbAtOldest(WindowFeedAll(NewWindow(rn), ms[..k - 1], decode).0, FeedAll(init, ms[..k - 1]).0, m, decode);
    }
  }

  /**
   * A fresh window gives what a lone reassembler gives, for any fragments of
   * one routing number that complete the message only at the end.
   */
  lemma {:induction false} WindowFeedFollowsReassembler<Msg>(rn: RoutingNumber, total: u16, ms: seq<TransportMessage>, decode: seq<byte> -> Option<Msg>)
    requires 0 < |ms|
    requires forall i :: 0 <= i < |ms| ==> ms[i].routingNumber == rn && ms[i].total == total
    requires forall j :: 0 <= j < |ms| ==> FeedAll(NewReassembly(rn, total, []), ms[..j]).1 == None
    requires FeedAll(NewReassembly(rn, total, []), ms).1.Some?
    ensures forall k :: 0 <= k < |ms| ==> WindowFeedAll(NewWindow(rn), ms[..k], decode).1 == None
    ensures WindowFeedAll(NewWindow(rn), ms, decode).1 == decode(FeedAll(NewReassembly(rn, total, []), ms).1.value)
  {
    forall k | 0 <= k < |ms| ensures WindowFeedAll(NewWindow(rn), ms[..k], decode).1 == None {
      if k == 0 {
        assert ms[..0] == [];
      } else {
        WindowFeedPrefix(rn, total, ms, decode, k);
      }
    }
    WindowFeedPrefix(rn, total, ms, decode, |ms|);
    assert ms[..|ms|] == ms;
  }

  /**
   * The round trip through a fresh window: every fragment of one message, in
   * any order, gives nothing until the last, which returns the decoding of
   * exactly the encoded message.
   */
  lemma {:induction false} WindowReassemblesAnyOrder<Msg>(c: MessageConstants, rn: RoutingNumber, data: seq<byte>, total: u16,
                                                       order: seq<nat>, decode: seq<byte> -> Option<Msg>)
    requires Fragmentable(c, data, total) && IsOffsetOrder(order, total)
    ensures var ms := Reorder(Fragments(c, rn, data, total), order);
      && WindowFeedAll(NewWindow(rn), ms, decode).1 == decode(data)
      && forall k :: 0 <= k < total ==> WindowFeedAll(NewWindow(rn), ms[..k], decode).1 == None
  {
    var ms := Reorder(Fragments(c, rn, data, total), order);
    ReassembleAnyOrder(c, rn, data, total, order);
    assert forall i :: 0 <= i < |ms| ==> ms[i].routingNumber == rn && ms[i].total == total;
    WindowFeedFollowsReassembler(rn, total, ms, decode);
  }
}

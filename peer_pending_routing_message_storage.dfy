/**
 * `PeerPendingRoutingMessageStorage`: the object that holds one peer's five
 * reassembly slots and its pool of buffers, updated in place. Its value is a
 * `Window`, and every method is proved to act on that value as the window
 * transition says.
 */
module PeerPendingRoutingMessageStorages {
  import opened Primitives
  import opened RoutingNumbers
  import opened Messages
  import opened PendingMessages
  import opened Windows
  import opened WindowProperties

  /** The value of one slot, reading the reassembler it holds. */
  ghost function Snapshot(s: PendingMessageState): SlotValue
    reads if s.InProgress? then {s.message} else {}
  {
    match s
    case NotReceived => NotReceivedSlot
    case InProgress(pm) => InProgressSlot(pm.State())
    case FullyHandled => FullyHandledSlot
  }

  /** The reassemblers a sequence of slots holds. */
  ghost function Held(a: seq<PendingMessageState>): set<PendingMessage> {
    set i | 0 <= i < |a| && a[i].InProgress? :: a[i].message
  }

  /** No reassembler is held by two slots. */
  ghost predicate Distinct(a: seq<PendingMessageState>) {
    forall i, j :: 0 <= i < j < |a| && a[i].InProgress? && a[j].InProgress? ==> a[i].message != a[j].message
  }

  /** The values of a sequence of slots. */
  ghost function Snapshots(a: seq<PendingMessageState>): (r: seq<SlotValue>)
    reads Held(a)
    ensures |r| == |a| && forall j :: 0 <= j < |a| ==> r[j] == Snapshot(a[j])
  {
    if a == [] then []
    else
      var init := a[..|a| - 1];
      assert forall i :: 0 <= i < |init| ==> init[i] == a[i];
      Snapshots(init) + [Snapshot(a[|a| - 1])]
  }

  function NotReceivedStates(n: nat): (r: seq<PendingMessageState>)
    ensures |r| == n && forall k :: 0 <= k < n ==> r[k] == NotReceived
  {
    seq(n, _ => NotReceived)
  }

  /** Emptying a slot keeps the slots distinct and holds no new reassembler. */
  lemma ClearKeepsDistinct(a: seq<PendingMessageState>, index: nat)
    requires Distinct(a) && index < |a|
    ensures Distinct(a[index := NotReceived]) && Held(a[index := NotReceived]) <= Held(a)
    ensures a[index].InProgress? ==> a[index].message !in Held(a[index := NotReceived])
  {
    var b := a[index := NotReceived];
    if a[index].InProgress? {
      forall i | 0 <= i < |b| && b[i].InProgress? ensures b[i].message != a[index].message {
        assert i != index && b[i] == a[i];
      }
    }
  }

  /** Filling an empty slot with a reassembler no slot holds keeps the slots distinct. */
  lemma FillKeepsDistinct(a: seq<PendingMessageState>, index: nat, s: PendingMessageState)
    requires Distinct(a) && index < |a| && a[index] == NotReceived
    requires s.InProgress? ==> s.message !in Held(a)
    ensures Distinct(a[index := s])
    ensures Held(a[index := s]) <= Held(a) + (if s.InProgress? then {s.message} else {})
  {
    var b := a[index := s];
    forall i, j | 0 <= i < j < |b| && b[i].InProgress? && b[j].InProgress? ensures b[i].message != b[j].message {
      if i == index {
        assert b[j] == a[j];
      } else if j == index {
        assert b[i] == a[i];
      }
    }
  }

  /** The eviction loop after `i` steps, as a window. */
  function EvictedUpTo(w: Window, i: nat): (r: Window)
    requires WellFormed(w) && i <= MAX_PENDING_MESSAGES
    ensures WellFormed(r)
  {
    Window(w.oldest, NotReceivedSlots(i) + w.slots[i..], w.pool + Recycled(w.slots[..i]))
  }

  /** One more step of the eviction loop empties slot `i` and recycles its buffer. */
  lemma EvictStep(w: Window, i: nat)
    requires WellFormed(w) && i < MAX_PENDING_MESSAGES
    ensures var cur := EvictedUpTo(w, i);
      cur.(slots := cur.slots[i := NotReceivedSlot], pool := cur.pool + Recycled([cur.slots[i]])) == EvictedUpTo(w, i + 1)
  {
    var cur := EvictedUpTo(w, i);
    assert cur.slots[i] == w.slots[i];
    assert w.slots[..i + 1][..i] == w.slots[..i];
    assert Recycled([w.slots[i]]) == Recycled([]) + (if w.slots[i].InProgressSlot? then [[]] else []);
    assert cur.slots[i := NotReceivedSlot] == NotReceivedSlots(i + 1) + w.slots[i + 1..];
  }

  /** Moving the slots `shift` places to the left keeps them distinct. */
  lemma ShiftKeepsDistinct(a: seq<PendingMessageState>, shift: nat)
    requires Distinct(a) && shift <= |a|
    ensures Distinct(a[shift..] + NotReceivedStates(shift))
    ensures Held(a[shift..] + NotReceivedStates(shift)) <= Held(a)
  {
    var b := a[shift..] + NotReceivedStates(shift);
    assert forall i :: 0 <= i < |a| - shift ==> b[i] == a[i + shift];
    forall o | o in Held(b) ensures o in Held(a) {
      var i :| 0 <= i < |b| && b[i].InProgress? && b[i].message == o;
      assert a[i + shift] == b[i];
    }
  }

  /**
   * The loop that moves every slot `shift` places to the left, taking each
   * one it moves; the first `shift` slots are already empty.
   */
  method ShiftLeftInPlace(a: array<PendingMessageState>, shift: nat)
    requires shift <= a.Length
    requires forall j :: 0 <= j < shift ==> a[j] == NotReceived
    modifies a
    ensures a[..] == old(a[..])[shift..] + NotReceivedStates(shift)
  {
    ghost var s0 := a[..];
    for i := 0 to a.Length - shift
      invariant forall j :: 0 <= j < i ==> a[j] == s0[j + shift]
      invariant forall j :: i <= j < a.Length ==> a[j] == if shift <= j < i + shift then NotReceived else s0[j]
    {
      var state := Take(a, i + shift);
      a[i] := state;
    }
    forall j | 0 <= j < a.Length
      ensures a[j] == if j < a.Length - shift then s0[j + shift] else NotReceived
    {
      if a.Length - shift <= j < shift {
        assert s0[j] == NotReceived;
      }
    }
    assert a[..] == s0[shift..] + NotReceivedStates(shift);
  }

  class PeerPendingRoutingMessageStorage {
    /** Cleared buffers kept for reuse. */
    var bufferQueue: seq<seq<byte>>
    /** The oldest routing number still accepted. */
    var oldestRoutingNumber: RoutingNumber
    /** Slot `i` is for routing number `oldestRoutingNumber + i`. */
    const pendingMessages: array<PendingMessageState>

    /** The reassemblers the slots hold. */
    ghost function Footprint(): set<PendingMessage>
      reads pendingMessages
    {
      Held(pendingMessages[..])
    }

    /** Five slots, no reassembler held by two of them. */
    ghost predicate Sound()
      reads pendingMessages
    {
      pendingMessages.Length == MAX_PENDING_MESSAGES && Distinct(pendingMessages[..])
    }

    /** The window this object holds. */
    ghost function Abs(): Window
      reads this, pendingMessages, Footprint()
    {
      Window(oldestRoutingNumber, Snapshots(pendingMessages[..]), bufferQueue)
    }

    ghost predicate Valid()
      reads this, pendingMessages, Footprint()
    {
      Sound() && WindowValid(Abs())
    }

    /** `new`: the given number is the oldest, every slot is empty and so is the pool. */
    constructor (routingNumber: RoutingNumber)
      ensures Valid() && Abs() == NewWindow(routingNumber)
      ensures fresh(pendingMessages) && Footprint() == {}
    {
      bufferQueue := [];
      oldestRoutingNumber := routingNumber;
      pendingMessages := new PendingMessageState[MAX_PENDING_MESSAGES](_ => NotReceived);
      new;
      assert pendingMessages[..] == NotReceivedStates(MAX_PENDING_MESSAGES);
      assert Abs().slots == NotReceivedSlots(MAX_PENDING_MESSAGES);
    }

    /** One step of the eviction loop: take slot `i`; a partial message gives its cleared buffer back to the pool. */
    method EvictSlot(i: nat)
      requires Sound() && i < MAX_PENDING_MESSAGES
      modifies this, pendingMessages, Footprint()
      ensures Sound() && Footprint() <= old(Footprint())
      ensures var w := old(Abs());
        Abs() == w.(slots := w.slots[i := NotReceivedSlot], pool := w.pool + Recycled([w.slots[i]]))
    {
      var state := TakeSlot(i);
      match state
      case NotReceived =>
      case InProgress(pm) =>
        var buffer := pm.DropMessage();
        bufferQueue := bufferQueue + [buffer];
      case FullyHandled =>
    }

    /**
     * The first loop of a shift: take the first `count` slots; a partial
     * message among them gives its cleared buffer back to the pool.
     */
    method DropOldest(count: nat)
      requires Sound() && count <= MAX_PENDING_MESSAGES
      modifies this, pendingMessages, Footprint()
      ensures Sound() && Footprint() <= old(Footprint())
      ensures Abs() == EvictOldest(old(Abs()), count)
    {
      ghost var w0 := Abs();
      for i := 0 to count
        invariant Sound() && Footprint() <= old(Footprint())
        invariant Abs() == EvictedUpTo(w0, i)
      {
        EvictSlot(i);
        EvictStep(w0, i);
      }
    }

    /**
     * The second loop of a shift: move every slot `shift` places to the
     * left; the first `shift` slots have already been emptied.
     */
    method ShiftSlotsLeft(shift: nat)
      requires Sound() && 1 <= shift < MAX_PENDING_MESSAGES
      requires forall j :: 0 <= j < shift ==> Abs().slots[j] == NotReceivedSlot
      modifies pendingMessages
      ensures Sound() && Footprint() <= old(Footprint())
      ensures Abs() == ShiftLeft(old(Abs()), shift)
    {
      ghost var s0 := pendingMessages[..];
      ghost var w0 := Abs();
      assert forall j :: 0 <= j < shift ==> Snapshot(s0[j]) == NotReceivedSlot;
      ShiftLeftInPlace(pendingMessages, shift);
      ShiftKeepsDistinct(s0, shift);
      assert Abs().slots == w0.slots[shift..] + NotReceivedSlots(shift);
    }

    /** Advance the window by `shift`: evict, move what is left, and add `shift` to the oldest number. */
    method AdvanceBy(shift: u16)
      requires Sound() && 1 <= shift
      modifies this, pendingMessages, Footprint()
      ensures Sound() && Footprint() <= old(Footprint())
      ensures Abs() == Advance(old(Abs()), shift)
    {
      var numberOfMessagesToDrop := Min(shift, MAX_PENDING_MESSAGES);
      ghost var w := Abs();
      DropOldest(numberOfMessagesToDrop);
      ghost var dropped := Abs();
      if shift < MAX_PENDING_MESSAGES {
        ShiftSlotsLeft(shift);
      }
      assert Abs() == (if shift < MAX_PENDING_MESSAGES then ShiftLeft(dropped, shift) else dropped);
      MoveOldest(shift);
    }

    /** `oldest_routing_number += shift`. */
    method MoveOldest(shift: u16)
      modifies this
      ensures Sound() == old(Sound()) && Footprint() == old(Footprint())
      ensures Abs() == old(Abs()).(oldest := AddAssign(old(oldestRoutingNumber), shift))
    {
      oldestRoutingNumber := AddAssign(oldestRoutingNumber, shift);
    }

    /**
     * Make room for routing number `rn`, not older than the oldest: shift
     * the window when `rn` lies past its end, and return the slot `rn` falls in.
     */
    method MakeRoomFor(rn: RoutingNumber) returns (index: nat)
      requires Sound() && !Lt(rn, oldestRoutingNumber)
      modifies this, pendingMessages, Footprint()
      ensures Sound() && Footprint() <= old(Footprint())
      ensures (Abs(), index) == MakeRoom(old(Abs()), rn)
    {
      var diff := Sub(rn, oldestRoutingNumber);
      if diff >= MAX_PENDING_MESSAGES {
        var shift: u16 := diff - MAX_PENDING_MESSAGES + 1;
        AdvanceBy(shift);
        index := diff - shift;
      } else {
        index := diff;
      }
    }

    /** `take` on slot `index`: its state is returned and the slot is left empty. */
    method TakeSlot(index: nat) returns (state: PendingMessageState)
      requires Sound() && index < MAX_PENDING_MESSAGES
      modifies pendingMessages
      ensures Sound() && Footprint() <= old(Footprint())
      ensures Abs() == old(Abs()).(slots := old(Abs()).slots[index := NotReceivedSlot])
      ensures Snapshot(state) == old(Abs()).slots[index]
      ensures state.InProgress? ==> state.message !in Footprint() && state.message in old(Footprint())
      ensures pendingMessages[index] == NotReceived
    {
      ghost var w := Abs();
      ghost var s0 := pendingMessages[..];
      state := Take(pendingMessages, index);
      assert pendingMessages[..] == s0[index := NotReceived];
      ClearKeepsDistinct(s0, index);
      assert state.InProgress? ==> state.message in Held(s0) by { assert s0[index] == state; }
      assert Abs().slots == w.slots[index := NotReceivedSlot];
    }

    /** Put `state` into the empty slot `index`. */
    method PutSlot(index: nat, state: PendingMessageState)
      requires Sound() && index < MAX_PENDING_MESSAGES && pendingMessages[index] == NotReceived
      requires state.InProgress? ==> state.message !in Footprint()
      modifies pendingMessages
      ensures Sound() && Footprint() <= old(Footprint()) + (if state.InProgress? then {state.message} else {})
      ensures Abs() == old(Abs()).(slots := old(Abs()).slots[index := Snapshot(state)])
    {
      ghost var w := Abs();
      ghost var s0 := pendingMessages[..];
      pendingMessages[index] := state;
      assert pendingMessages[..] == s0[index := state];
      FillKeepsDistinct(s0, index, state);
      assert Abs().slots == w.slots[index := Snapshot(state)];
    }

    /** A first fragment: start a reassembler on the first pooled buffer, or on a new empty one. */
    method StartMessage(m: TransportMessage) returns (pm: PendingMessage)
      requires Sound()
      modifies this
      ensures Sound() && Footprint() == old(Footprint()) && fresh(pm)
      ensures var pool := old(bufferQueue);
        && pm.State() == NewReassembly(m.routingNumber, m.total, if |pool| > 0 then pool[0] else [])
        && Abs() == old(Abs()).(pool := if |pool| > 0 then pool[1..] else pool)
    {
      var buffer := if |bufferQueue| > 0 then bufferQueue[0] else [];
      bufferQueue := if |bufferQueue| > 0 then bufferQueue[1..] else bufferQueue;
      pm := new PendingMessage(m.routingNumber, m.total, buffer);
    }

    /**
     * The end of an arrival: the reassembler taken out of slot `index` (or
     * just started) gets the fragment; a completed message is decoded and
     * the slot becomes delivered, otherwise the reassembler goes back.
     */
    method Store<Msg>(index: nat, pm: PendingMessage, m: TransportMessage, decode: seq<byte> -> Option<Msg>) returns (r: Option<Msg>)
      requires Sound() && index < MAX_PENDING_MESSAGES && pendingMessages[index] == NotReceived
      requires pm !in Footprint()
      modifies pendingMessages, pm
      ensures Sound() && Footprint() <= old(Footprint()) + {pm}
      ensures (Abs(), r) == Deliver(old(Abs()), index, old(pm.State()), m, decode)
    {
      var binary := pm.AddTransportMessageAndTryAssemble(m);
      match binary {
        case Some(b) =>
          r := decode(b);
          PutSlot(index, FullyHandled);
        case None =>
          PutSlot(index, InProgress(pm));
          r := None;
      }
    }

    /**
     * The fragment goes to slot `index`: a delivered slot drops it, an empty
     * slot starts a reassembler, and the reassembler gets the fragment.
     */
    method Dispatch<Msg>(index: nat, m: TransportMessage, decode: seq<byte> -> Option<Msg>) returns (r: Option<Msg>)
      requires Sound() && index < MAX_PENDING_MESSAGES
      modifies this, pendingMessages, Footprint()
      ensures Sound() && fresh(Footprint() - old(Footprint()))
      ensures (Abs(), r) == TakeAndDeliver(old(Abs()), index, m, decode)
    {
      var state := TakeSlot(index);
      match state {
        case NotReceived =>
          var pendingMessage := StartMessage(m);
          r := Store(index, pendingMessage, m, decode);
        case InProgress(pendingMessage) =>
          r := Store(index, pendingMessage, m, decode);
        case FullyHandled =>
          r := None;
      }
    }

    /**
     * `add_transport_message_and_try_assemble`: one fragment arrives, and the
     * window changes exactly as `WindowAbsorb` says, keeping its invariant;
     * the only new reassembler is the one a first fragment starts.
     */
    method AddTransportMessageAndTryAssemble<Msg>(m: TransportMessage, decode: seq<byte> -> Option<Msg>) returns (r: Option<Msg>)
      requires Valid()
      modifies this, pendingMessages, Footprint()
      ensures Valid()
      ensures (Abs(), r) == WindowAbsorb(old(Abs()), m, decode)
      ensures fresh(Footprint() - old(Footprint()))
    {
      WindowAbsorbPreservesValid(Abs(), m, decode);
      if Lt(m.routingNumber, oldestRoutingNumber) {
        return None;
      }
      var index := MakeRoomFor(m.routingNumber);
      r := Dispatch(index, m, decode);
    }
  }
}

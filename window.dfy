/**
 * The value of a peer's reassembly window: five slots for the routing numbers
 * `oldest .. oldest + 4` and a pool of recycled buffers, and the transition
 * that one incoming fragment makes on it.
 */
module Windows {
  import opened Primitives
  import opened RoutingNumbers
  import opened Messages
  import opened PendingMessages

  /** `MAX_PENDING_MESSAGES_U16`: the depth of the window. */
  const MAX_PENDING_MESSAGES: u16 := 5

  /** The value of a `PendingMessageState`. */
  datatype SlotValue = NotReceivedSlot | InProgressSlot(reassembly: Reassembly) | FullyHandledSlot

  /** The value of a `PeerPendingRoutingMessageStorage`. */
  datatype Window = Window(oldest: RoutingNumber, slots: seq<SlotValue>, pool: seq<seq<byte>>)

  predicate WellFormed(w: Window) {
    |w.slots| == MAX_PENDING_MESSAGES
  }

  function NotReceivedSlots(n: nat): (r: seq<SlotValue>)
    ensures |r| == n && forall k :: 0 <= k < n ==> r[k] == NotReceivedSlot
  {
    seq(n, _ => NotReceivedSlot)
  }

  /** The buffers that evicting `slots` in index order puts into the pool: one cleared buffer per partial message. */
  function Recycled(slots: seq<SlotValue>): (r: seq<seq<byte>>)
    ensures forall k :: 0 <= k < |r| ==> r[k] == []
    ensures |r| == |InProgressAt(slots)|
  {
    if slots == [] then []
    else
      var n := |slots| - 1;
      InProgressAtSnoc(slots);
      Recycled(slots[..n]) + (if slots[n].InProgressSlot? then [[]] else [])
  }

  /** The indices of the partial messages among `slots`. */
  function InProgressAt(slots: seq<SlotValue>): set<nat> {
    set k: nat | k < |slots| && slots[k].InProgressSlot?
  }

  lemma InProgressAtSnoc(slots: seq<SlotValue>)
    requires slots != []
    ensures var n := |slots| - 1;
      InProgressAt(slots) == InProgressAt(slots[..n]) + (if slots[n].InProgressSlot? then {n} else {})
      && n !in InProgressAt(slots[..n])
  {
  }

  /** The first loop of a shift: empty the first `count` slots, recycling the buffers of partial messages. */
  function EvictOldest(w: Window, count: nat): (r: Window)
    requires WellFormed(w) && count <= MAX_PENDING_MESSAGES
    ensures WellFormed(r) && r.oldest == w.oldest
  {
    w.(slots := NotReceivedSlots(count) + w.slots[count..], pool := w.pool + Recycled(w.slots[..count]))
  }

  /** The second loop of a shift: move every slot `shift` places to the left. */
  function ShiftLeft(w: Window, shift: nat): (r: Window)
    requires WellFormed(w) && shift < MAX_PENDING_MESSAGES
    ensures WellFormed(r) && r.oldest == w.oldest && r.pool == w.pool
  {
    w.(slots := w.slots[shift..] + NotReceivedSlots(shift))
  }

  /** Advancing the window by `shift`: evict, move what is left, and add `shift` to `oldest`. */
  function Advance(w: Window, shift: u16): (r: Window)
    requires WellFormed(w) && 1 <= shift
    ensures WellFormed(r)
  {
    var dropped := EvictOldest(w, Min(shift, MAX_PENDING_MESSAGES));
    var moved := if shift < MAX_PENDING_MESSAGES then ShiftLeft(dropped, shift) else dropped;
    moved.(oldest := AddAssign(w.oldest, shift))
  }

  /**
   * Making room for routing number `rn`, not older than `oldest`: the window
   * after the shift, if one is needed, and the slot `rn` falls in.
   */
  function MakeRoom(w: Window, rn: RoutingNumber): (r: (Window, nat))
    requires WellFormed(w) && !Lt(rn, w.oldest)
    ensures WellFormed(r.0) && r.1 < MAX_PENDING_MESSAGES
  {
    var diff := Sub(rn, w.oldest);
    if diff >= MAX_PENDING_MESSAGES then
      var shift := diff - MAX_PENDING_MESSAGES + 1;
      (Advance(w, shift), diff - shift)
    else (w, diff)
  }

  /** Hand the fragment to the reassembler of slot `index` and store what follows. */
  function Deliver<Msg>(w: Window, index: nat, p: Reassembly, m: TransportMessage, decode: seq<byte> -> Option<Msg>): (r: (Window, Option<Msg>))
    requires WellFormed(w) && index < MAX_PENDING_MESSAGES
    ensures WellFormed(r.0) && r.0.oldest == w.oldest && r.0.pool == w.pool
  {
    var (p', bytes) := Assemble(p, m);
    match bytes
    case Some(b) => (w.(slots := w.slots[index := FullyHandledSlot]), decode(b))
    case None => (w.(slots := w.slots[index := InProgressSlot(p')]), None)
  }

  /**
   * The slot `index` that a fragment falls in is taken (leaving `NotReceived`),
   * and: a delivered slot drops the fragment; an empty slot starts a
   * reassembler on a pooled buffer (or a new empty one); then the reassembler
   * gets the fragment, and a completed message is decoded and leaves the slot
   * delivered.
   */
  function TakeAndDeliver<Msg>(w: Window, index: nat, m: TransportMessage, decode: seq<byte> -> Option<Msg>): (r: (Window, Option<Msg>))
    requires WellFormed(w) && index < MAX_PENDING_MESSAGES
    ensures WellFormed(r.0) && r.0.oldest == w.oldest
    ensures r.0.pool == if w.slots[index].NotReceivedSlot? && |w.pool| > 0 then w.pool[1..] else w.pool
    ensures w.slots[index].FullyHandledSlot? ==> r == (w.(slots := w.slots[index := NotReceivedSlot]), None)
  {
    var w2 := w.(slots := w.slots[index := NotReceivedSlot]);
    match w.slots[index]
    case FullyHandledSlot => (w2, None)
    case NotReceivedSlot =>
      var buffer := if |w2.pool| > 0 then w2.pool[0] else [];
      var pool := if |w2.pool| > 0 then w2.pool[1..] else w2.pool;
      Deliver(w2.(pool := pool), index, NewReassembly(m.routingNumber, m.total, buffer), m, decode)
    case InProgressSlot(p) => Deliver(w2, index, p, m, decode)
  }

  /**
   * `add_transport_message_and_try_assemble`: one fragment arrives. A routing
   * number older than `oldest` is dropped. Otherwise the window makes room and
   * the fragment goes to the slot of its routing number.
   */
  function WindowAbsorb<Msg>(w: Window, m: TransportMessage, decode: seq<byte> -> Option<Msg>): (r: (Window, Option<Msg>))
    requires WellFormed(w)
    ensures WellFormed(r.0)
    ensures Lt(m.routingNumber, w.oldest) ==> r == (w, None)
  {
    if Lt(m.routingNumber, w.oldest) then (w, None)
    else
      var (w1, index) := MakeRoom(w, m.routingNumber);
      TakeAndDeliver(w1, index, m, decode)
  }

  /**
   * The window invariant: slot `i` in progress holds a reassembler for routing
   * number `oldest + i`, and every pooled buffer is empty.
   */
  ghost predicate WindowValid(w: Window) {
    && WellFormed(w)
    && (forall i :: 0 <= i < MAX_PENDING_MESSAGES && w.slots[i].InProgressSlot? ==>
          w.slots[i].reassembly.routingNumber == AddAssign(w.oldest, i) && ReassemblyValid(w.slots[i].reassembly))
    && (forall k :: 0 <= k < |w.pool| ==> w.pool[k] == [])
  }

  /** The window `new` creates: `oldest` is the given number, every slot empty, no pooled buffer. */
  function NewWindow(rn: RoutingNumber): (w: Window)
    ensures WindowValid(w)
  {
    Window(rn, NotReceivedSlots(MAX_PENDING_MESSAGES), [])
  }
}

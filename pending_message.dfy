/**
 * Reassembly of one routing number: the set of offsets not yet received, a
 * buffer that grows as non-final parts are written into place, and the final
 * part held aside until every other part has arrived.
 */
module PendingMessages {
  import opened Primitives
  import opened RoutingNumbers
  import opened Messages

  /** The value of a `PendingMessage`. */
  datatype Reassembly = Reassembly(
    routingNumber: RoutingNumber,
    total: u16,
    notReceivedParts: set<u16>,
    binary: seq<byte>,
    lastPart: Option<seq<byte>>)

  /** The offsets `0 .. n - 1`. */
  function PartsBelow(n: u16): (r: set<u16>)
    ensures forall i: u16 :: i in r <==> i < n
    ensures |r| == n
  {
    if n == 0 then {} else PartsBelow(n - 1) + {n - 1}
  }

  /** The state `PendingMessage::new` builds. */
  function NewReassembly(rn: RoutingNumber, total: u16, binary: seq<byte>): Reassembly {
    Reassembly(rn, total, PartsBelow(total), binary, None)
  }

  /** `Vec::resize(n, 0)`: truncate, or extend with zero bytes. */
  function Resize(b: seq<byte>, n: nat): (r: seq<byte>)
    ensures |r| == n
    ensures forall k :: 0 <= k < n ==> r[k] == if k < |b| then b[k] else 0
  {
    if n <= |b| then b[..n] else b + Zeros(n - |b|)
  }

  /** `b[begin .. begin + |src|].copy_from_slice(src)`. */
  function CopyFromSlice(b: seq<byte>, begin: nat, src: seq<byte>): (r: seq<byte>)
    requires begin + |src| <= |b|
    ensures |r| == |b|
    ensures forall k :: 0 <= k < |b| ==> r[k] == if begin <= k < begin + |src| then src[k - begin] else b[k]
  {
    b[..begin] + src + b[begin + |src|..]
  }

  /**
   * Writing a non-final part: the buffer grows (with zeros) only when it is
   * shorter than the end of the part, `payload` lands at `[begin, begin + |payload|)`,
   * and every other byte is kept.
   */
  function Place(binary: seq<byte>, begin: nat, payload: seq<byte>): (r: seq<byte>)
    ensures |r| == if |binary| < begin + |payload| then begin + |payload| else |binary|
    ensures r[begin .. begin + |payload|] == payload
    ensures forall k :: 0 <= k < |r| && !(begin <= k < begin + |payload|) ==>
              r[k] == if k < |binary| then binary[k] else 0
  {
    var end := begin + |payload|;
    var grown := if |binary| < end then Resize(binary, end) else binary;
    var r := CopyFromSlice(grown, begin, payload);
    assert r[begin .. end] == payload by {
      forall k | 0 <= k < |payload| ensures r[begin .. end][k] == payload[k] {
        assert r[begin + k] == payload[k];
      }
    }
    r
  }

  /** `merge_last_part_if_needed`: append the held final part, if any. */
  function MergeLastPart(s: Reassembly): (r: Reassembly)
    ensures r.lastPart == None
    ensures r.binary == s.binary + (if s.lastPart.Some? then s.lastPart.value else [])
    ensures r.routingNumber == s.routingNumber && r.total == s.total && r.notReceivedParts == s.notReceivedParts
  {
    match s.lastPart
    case None => s
    case Some(last) =>
      var begin := |s.binary|;
      var grown := Resize(s.binary, begin + |last|);
      var merged := CopyFromSlice(grown, begin, last);
      assert merged == s.binary + last;
      s.(binary := merged, lastPart := None)
  }

  /** The fragment passes the three checks: same total, offset in range, not seen before. */
  predicate Accepts(s: Reassembly, m: TransportMessage) {
    m.total == s.total && m.offset < s.total && m.offset in s.notReceivedParts
  }

  /** Finish when nothing is missing: merge the final part and hand out the buffer. */
  function TryComplete(s: Reassembly): (r: (Reassembly, Option<seq<byte>>))
    ensures r.1.Some? <==> s.notReceivedParts == {}
    ensures r.0 == if s.notReceivedParts == {} then MergeLastPart(s) else s
    ensures r.1.Some? ==> r.1.value == r.0.binary
  {
    if s.notReceivedParts == {} then
      var merged := MergeLastPart(s);
      (merged, Some(merged.binary))
    else (s, None)
  }

  /**
   * `add_transport_message_and_try_assemble`: a fragment with another total, an
   * offset out of range or an offset already received changes nothing and
   * gives None. Otherwise its offset is crossed off; a non-final part is
   * written at `offset * |payload|`, the final part is held aside; and once no
   * offset is missing the result is the buffer followed by the final part.
   */
  function Assemble(s: Reassembly, m: TransportMessage): (r: (Reassembly, Option<seq<byte>>))
    ensures !Accepts(s, m) ==> r == (s, None)
    ensures Accepts(s, m) ==>
      && r.0.notReceivedParts == s.notReceivedParts - {m.offset}
      && r.0.routingNumber == s.routingNumber && r.0.total == s.total
    ensures r.1.Some? <==>
      Accepts(s, m) && s.notReceivedParts == {m.offset} && !(m.offset + 1 == s.total && s.lastPart.Some?)
    ensures r.1.Some? ==> r.1 == Some(r.0.binary) && r.0.lastPart == None
    ensures Accepts(s, m) && m.offset + 1 != s.total ==>
      var placed := Place(s.binary, m.offset * |m.payload|, m.payload);
      r.0.binary == placed + (if r.1.Some? && s.lastPart.Some? then s.lastPart.value else [])
    ensures Accepts(s, m) && m.offset + 1 == s.total && s.lastPart.None? ==>
      r.0.binary == s.binary + (if r.1.Some? then m.payload else [])
      && r.0.lastPart == (if r.1.Some? then None else Some(m.payload))
    ensures Accepts(s, m) && m.offset + 1 != s.total && r.1.None? ==> r.0.lastPart == s.lastPart
    ensures Accepts(s, m) && m.offset + 1 == s.total && s.lastPart.Some? ==>
      r == (s.(notReceivedParts := s.notReceivedParts - {m.offset}), None)
  {
    if s.total != m.total then (s, None)
    else if s.total <= m.offset then (s, None)
    else if m.offset !in s.notReceivedParts then (s, None)
    else
      var s1 := s.(notReceivedParts := s.notReceivedParts - {m.offset});
      if m.offset + 1 != s.total then
        var begin := m.offset * |m.payload|;
        TryComplete(s1.(binary := Place(s1.binary, begin, m.payload)))
      else if s1.lastPart.Some? then (s1, None)
      else TryComplete(s1.(lastPart := Some(m.payload)))
  }

  /**
   * What every reachable state satisfies: missing offsets are in range, and a
   * held final part means its offset was crossed off while some other offset
   * is still missing.
   */
  ghost predicate ReassemblyValid(s: Reassembly) {
    && (forall i :: i in s.notReceivedParts ==> i < s.total)
    && (s.lastPart.Some? ==> 1 <= s.total && s.total - 1 !in s.notReceivedParts && s.notReceivedParts != {})
  }

  lemma NewReassemblyValid(rn: RoutingNumber, total: u16, binary: seq<byte>)
    ensures ReassemblyValid(NewReassembly(rn, total, binary))
    ensures NewReassembly(rn, total, binary).binary == binary
    ensures forall i: u16 :: i in NewReassembly(rn, total, binary).notReceivedParts <==> i < total
  {
  }

  /** Assembling keeps the invariant. */
  lemma AssemblePreservesValid(s: Reassembly, m: TransportMessage)
    requires ReassemblyValid(s)
    ensures ReassemblyValid(Assemble(s, m).0)
  {
  }

  /**
   * The duplicate-final-part check never fires: a held final part means its
   * offset is no longer missing, so the duplicate check has already refused it.
   */
  lemma DuplicateLastPartUnreachable(s: Reassembly, m: TransportMessage)
    requires ReassemblyValid(s) && Accepts(s, m) && m.offset + 1 == s.total
    ensures s.lastPart.None?
  {
  }

  /** Feeding the same fragment twice counts once: the repeat changes nothing. */
  lemma DuplicateIgnored(s: Reassembly, m: TransportMessage)
    requires Accepts(s, m)
    ensures var s' := Assemble(s, m).0; Assemble(s', m) == (s', None)
  {
    var s' := Assemble(s, m).0;
    assert m.offset !in s'.notReceivedParts;
  }

  /** `PendingMessage`, whose fields the assembly methods update in place. */
  class PendingMessage {
    var routingNumber: RoutingNumber
    var total: u16
    var notReceivedParts: set<u16>
    var binary: seq<byte>
    var lastPart: Option<seq<byte>>

    function State(): Reassembly
      reads this
    {
      Reassembly(routingNumber, total, notReceivedParts, binary, lastPart)
    }

    /** `new`: every offset below `total` is missing and `binary` is the buffer given. */
    constructor (routingNumber: RoutingNumber, total: u16, binary: seq<byte>)
      ensures State() == NewReassembly(routingNumber, total, binary)
    {
      var parts: set<u16> := {};
      for i := 0 to total
        invariant parts == PartsBelow(i)
      {
        assert PartsBelow(i + 1) == PartsBelow(i) + {i};
        parts := parts + {i};
      }
      this.routingNumber := routingNumber;
      this.total := total;
      this.notReceivedParts := parts;
      this.binary := binary;
      this.lastPart := None;
    }

    method MergeLastPartIfNeeded()
      modifies this
      ensures State() == MergeLastPart(old(State()))
    {
      if lastPart.None? {
        return;
      }
      var last := lastPart.value;
      lastPart := None;
      var dataOffsetBegin := |binary|;
      var dataOffsetEnd := dataOffsetBegin + |last|;
      binary := Resize(binary, dataOffsetEnd);
      binary := CopyFromSlice(binary, dataOffsetBegin, last);
    }

    method AddTransportMessageAndTryAssemble(m: TransportMessage) returns (r: Option<seq<byte>>)
      modifies this
      ensures (State(), r) == Assemble(old(State()), m)
    {
      ghost var s := State();
      if total != m.total {
        return None;
      }
      if total <= m.offset {
        return None;
      }
      if m.offset !in notReceivedParts {
        return None;
      }
      notReceivedParts := notReceivedParts - {m.offset};
      ghost var s1 := State();
      if m.offset + 1 != total {
        var dataOffsetBegin := m.offset * |m.payload|;
        var dataOffsetEnd := dataOffsetBegin + |m.payload|;
        if |binary| < dataOffsetEnd {
          binary := Resize(binary, dataOffsetEnd);
        }
        binary := CopyFromSlice(binary, dataOffsetBegin, m.payload);
        assert binary == Place(s1.binary, dataOffsetBegin, m.payload);
      } else {
        if lastPart.Some? {
          return None;
        }
        lastPart := Some(m.payload);
      }
      ghost var s2 := State();
      if notReceivedParts == {} {
        MergeLastPartIfNeeded();
        r := Some(binary);
      } else {
        r := None;
      }
      assert (State(), r) == TryComplete(s2);
    }

    /** `drop_message`: clear the buffer and hand it back for reuse. */
    method DropMessage() returns (buffer: seq<byte>)
      modifies this
      ensures buffer == []
      ensures State() == old(State()).(binary := [])
    {
      binary := [];
      buffer := binary;
    }
  }

  /** `PendingMessageState`: one slot of a peer's window. */
  datatype PendingMessageState = NotReceived | InProgress(message: PendingMessage) | FullyHandled

  /** `PendingMessageState::take` on slot `i`: return it and leave `NotReceived` behind. */
  method Take(slots: array<PendingMessageState>, i: nat) returns (s: PendingMessageState)
    requires i < slots.Length
    modifies slots
    ensures s == old(slots[i]) && slots[i] == NotReceived
    ensures forall j :: 0 <= j < slots.Length && j != i ==> slots[j] == old(slots[j])
  {
    s := slots[i];
    slots[i] := NotReceived;
  }
}

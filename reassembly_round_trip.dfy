/**
 * Fragmenting and then reassembling is the identity: feeding every fragment the
 * iterator produces, in any order, into a reassembler that starts from an empty
 * buffer yields back the encoded message, on the last fragment and not before.
 */
module ReassemblyRoundTrip {
  import opened Primitives
  import opened RoutingNumbers
  import opened Messages
  import opened TransportMessagesIterators
  import opened PendingMessages

  /** Feed `ms` one after the other; the result is the outcome of the last call. */
  function FeedAll(s: Reassembly, ms: seq<TransportMessage>): (Reassembly, Option<seq<byte>>) {
    if ms == [] then (s, None) else Assemble(FeedAll(s, ms[..|ms| - 1]).0, ms[|ms| - 1])
  }

  /** `order` lists every offset below `n` exactly once. */
  ghost predicate IsOffsetOrder(order: seq<nat>, n: nat) {
    && |order| == n
    && (forall j :: 0 <= j < n ==> order[j] < n)
    && (forall i :: 0 <= i < n ==> i in order)
    && (forall a, b :: 0 <= a < b < n ==> order[a] != order[b])
  }

  /** The fragments `fs` rearranged by `order`. */
  function Reorder(fs: seq<TransportMessage>, order: seq<nat>): (ms: seq<TransportMessage>)
    requires forall j :: 0 <= j < |order| ==> order[j] < |fs|
    ensures |ms| == |order| && forall j :: 0 <= j < |order| ==> ms[j] == fs[order[j]]
  {
    seq(|order|, (j: int) requires 0 <= j < |order| => fs[order[j]])
  }

  /** Block `j` of the buffer holds block `j` of the data. */
  ghost predicate Covers(b: seq<byte>, data: seq<byte>, p: nat, j: int) {
    0 <= j && j * p + p <= |b| && j * p + p <= |data| && b[j * p .. j * p + p] == data[j * p .. j * p + p]
  }

  /**
   * The reassembler after the offsets in `placed` were fed in: those offsets
   * are crossed off, the final part is held once it came, the buffer stays
   * within the non-final blocks and holds every non-final block received.
   */
  ghost predicate Progress(s: Reassembly, c: MessageConstants, rn: RoutingNumber, data: seq<byte>, total: u16, placed: set<int>)
    requires Fragmentable(c, data, total)
  {
    var p := c.maxPayloadSize;
    && s.routingNumber == rn && s.total == total
    && (forall i: u16 :: i in s.notReceivedParts <==> i < total && i !in placed)
    && (forall i :: i in placed ==> 0 <= i < total)
    && s.lastPart == (if total - 1 in placed then Some(data[(total - 1) * p ..]) else None)
    && |s.binary| <= (total - 1) * p
    && (forall j :: j in placed && j + 1 < total ==> Covers(s.binary, data, p, j))
  }

  /** Bytes outside the written part keep their value. */
  lemma PlaceKeepsBlock(b: seq<byte>, begin: nat, payload: seq<byte>, lo: nat, hi: nat)
    requires lo <= hi <= |b|
    requires hi <= begin || begin + |payload| <= lo
    ensures Place(b, begin, payload)[lo..hi] == b[lo..hi]
  {
    var r := Place(b, begin, payload);
    forall k | lo <= k < hi ensures r[k] == b[k] {
    }
  }

  lemma BlocksDisjoint(i: nat, j: nat, p: nat)
    requires i != j
    ensures i * p + p <= j * p || j * p + p <= i * p
  {
    if i < j {
      MulLe(i + 1, j, p);
    } else {
      MulLe(j + 1, i, p);
    }
  }

  /** A buffer of exactly `n` blocks that covers each of them is the data's first `n` blocks. */
  lemma CoveredPrefix(b: seq<byte>, data: seq<byte>, p: nat, n: nat)
    requires p > 0 && |b| == n * p && n * p <= |data|
    requires forall j :: 0 <= j < n ==> Covers(b, data, p, j)
    ensures b == data[..n * p]
  {
    forall k | 0 <= k < |b| ensures b[k] == data[k] {
      var j := k / p;
      DivBlock(k, p);
      if j >= n {
        MulLe(n, j, p);
      }
      assert Covers(b, data, p, j);
      assert b[j * p .. j * p + p][k - j * p] == data[j * p .. j * p + p][k - j * p];
    }
  }

  /** A full set of received non-final blocks fixes the buffer. */
  lemma FullBuffer(s: Reassembly, c: MessageConstants, rn: RoutingNumber, data: seq<byte>, total: u16, placed: set<int>)
    requires Fragmentable(c, data, total) && Progress(s, c, rn, data, total, placed)
    requires forall i :: 0 <= i < total - 1 ==> i in placed
    ensures s.binary == data[..(total - 1) * c.maxPayloadSize]
  {
    var p := c.maxPayloadSize;
    if total >= 2 {
      assert Covers(s.binary, data, p, total - 2);
      assert (total - 2) * p + p == (total - 1) * p;
    }
    CoveredPrefix(s.binary, data, p, total - 1);
  }

  lemma FullSetEmpty(missing: set<u16>, total: u16, placed: set<int>, j: u16)
    requires forall i: u16 :: i in missing <==> i < total && i !in placed
    requires forall i :: 0 <= i < total ==> i in placed + {j}
    ensures missing - {j} == {}
  {
    forall x | x in missing ensures x == j {
      assert x in placed + {j};
    }
    assert missing <= {j};
  }

  lemma SomeStillMissing(missing: set<u16>, total: u16, placed: set<int>, j: u16, w: int)
    requires forall i: u16 :: i in missing <==> i < total && i !in placed
    requires 0 <= w < total && w !in placed + {j}
    ensures missing - {j} != {}
  {
    assert w in missing - {j};
  }

  /**
   * Once the fed offsets are in `Progress`, completion comes exactly when every
   * offset was fed, and then it yields the data.
   */
  lemma TryCompleteProgress(s: Reassembly, c: MessageConstants, rn: RoutingNumber, data: seq<byte>, total: u16, placed: set<int>)
    requires Fragmentable(c, data, total) && Progress(s, c, rn, data, total, placed)
    ensures (exists w :: 0 <= w < total && w !in placed) ==> TryComplete(s) == (s, None)
    ensures (forall i :: 0 <= i < total ==> i in placed) ==> TryComplete(s).1 == Some(data)
  {
    var p := c.maxPayloadSize;
    if forall i :: 0 <= i < total ==> i in placed {
      FullSetEmpty(s.notReceivedParts, total, placed, 0);
      assert s.notReceivedParts == {};
      FullBuffer(s, c, rn, data, total, placed);
      assert data[..(total - 1) * p] + data[(total - 1) * p ..] == data;
    } else {
      var w :| 0 <= w < total && w !in placed;
      assert w in s.notReceivedParts;
    }
  }

  /** Writing one block leaves every other covered block covered. */
  lemma PlaceKeepsCovers(b: seq<byte>, data: seq<byte>, p: nat, placed: set<int>, total: nat, j: nat, payload: seq<byte>)
    requires |payload| == p
    requires forall i :: i in placed && i + 1 < total ==> Covers(b, data, p, i)
    requires j !in placed
    ensures forall i :: i in placed && i + 1 < total ==> Covers(Place(b, j * p, payload), data, p, i)
  {
    forall i | i in placed && i + 1 < total ensures Covers(Place(b, j * p, payload), data, p, i) {
      assert Covers(b, data, p, i);
      BlocksDisjoint(i, j, p);
      PlaceKeepsBlock(b, j * p, payload, i * p, i * p + p);
    }
  }

  /** Writing non-final fragment `j` keeps `Progress`, now with `j` fed. */
  lemma PlaceProgress(s: Reassembly, c: MessageConstants, rn: RoutingNumber, data: seq<byte>, total: u16, placed: set<int>, j: u16)
    requires Fragmentable(c, data, total) && Progress(s, c, rn, data, total, placed)
    requires j + 1 < total && j !in placed
    ensures var m := Fragment(c, rn, data, total, j);
      var s2 := s.(notReceivedParts := s.notReceivedParts - {j}, binary := Place(s.binary, j * c.maxPayloadSize, m.payload));
      Progress(s2, c, rn, data, total, placed + {j})
  {
    var p := c.maxPayloadSize;
    var m := Fragment(c, rn, data, total, j);
    FragmentPayload(c, rn, data, total, j);
    var begin := j * p;
    var b' := Place(s.binary, begin, m.payload);
    MulLe(j + 1, total - 1, p);
    MulSucc(j + 1, p);
    assert begin + p <= (total - 1) * p;
    assert |b'| <= (total - 1) * p;
    assert Covers(b', data, p, j);
    PlaceKeepsCovers(s.binary, data, p, placed, total, j, m.payload);
    var s2 := s.(notReceivedParts := s.notReceivedParts - {j}, binary := b');
    assert forall i: u16 :: i in s2.notReceivedParts <==> i < total && i !in placed + {j};
    assert (total - 1 in placed + {j}) == (total - 1 in placed);
  }

  /** Holding the final fragment keeps `Progress`, now with it fed. */
  lemma HoldLastProgress(s: Reassembly, c: MessageConstants, rn: RoutingNumber, data: seq<byte>, total: u16, placed: set<int>, j: u16)
    requires Fragmentable(c, data, total) && Progress(s, c, rn, data, total, placed)
    requires j + 1 == total && j !in placed
    ensures var m := Fragment(c, rn, data, total, j);
      var s2 := s.(notReceivedParts := s.notReceivedParts - {j}, lastPart := Some(m.payload));
      Progress(s2, c, rn, data, total, placed + {j})
  {
    FragmentPayload(c, rn, data, total, j);
  }

  /** The accepted non-final fragment is written in place, then completion is tried. */
  lemma AssembleNonFinalUnfold(s: Reassembly, m: TransportMessage)
    requires Accepts(s, m) && m.offset + 1 < s.total
    ensures Assemble(s, m) == TryComplete(s.(notReceivedParts := s.notReceivedParts - {m.offset},
                                             binary := Place(s.binary, m.offset * |m.payload|, m.payload)))
  {
  }

  /** The accepted final fragment, when none is held yet, is held aside, then completion is tried. */
  lemma AssembleFinalUnfold(s: Reassembly, m: TransportMessage)
    requires Accepts(s, m) && m.offset + 1 == s.total && s.lastPart.None?
    ensures Assemble(s, m) == TryComplete(s.(notReceivedParts := s.notReceivedParts - {m.offset},
                                             lastPart := Some(m.payload)))
  {
  }

  /** Feeding fragment `j`, not yet fed, moves `Progress` on, and completes exactly when it was the last one missing. */
  lemma AssembleStep(s: Reassembly, c: MessageConstants, rn: RoutingNumber, data: seq<byte>, total: u16, placed: set<int>, j: u16)
    requires Fragmentable(c, data, total) && Progress(s, c, rn, data, total, placed)
    requires j < total && j !in placed
    ensures var r := Assemble(s, Fragment(c, rn, data, total, j));
      && ((exists w :: 0 <= w < total && w !in placed + {j}) ==>
            r.1 == None && Progress(r.0, c, rn, data, total, placed + {j}))
      && ((forall i :: 0 <= i < total ==> i in placed + {j}) ==> r.1 == Some(data))
  {
    var m := Fragment(c, rn, data, total, j);
    assert Accepts(s, m);
    if j + 1 < total {
      AssembleNonFinalUnfold(s, m);
      FragmentPayload(c, rn, data, total, j);
      assert j * |m.payload| == j * c.maxPayloadSize;
      PlaceProgress(s, c, rn, data, total, placed, j);
      TryCompleteProgress(s.(notReceivedParts := s.notReceivedParts - {j}, binary := Place(s.binary, j * c.maxPayloadSize, m.payload)),
                          c, rn, data, total, placed + {j});
    } else {
      AssembleFinalUnfold(s, m);
      HoldLastProgress(s, c, rn, data, total, placed, j);
      TryCompleteProgress(s.(notReceivedParts := s.notReceivedParts - {j}, lastPart := Some(m.payload)),
                          c, rn, data, total, placed + {j});
    }
  }

  /** The offsets fed by the first `k` steps. */
  function FedOffsets(order: seq<nat>, k: nat): set<int>
    requires k <= |order|
  {
    set j | 0 <= j < k :: order[j] as int
  }

  /** A fresh reassembler over an empty buffer is in `Progress` with nothing fed. */
  lemma ProgressInit(c: MessageConstants, rn: RoutingNumber, data: seq<byte>, total: u16)
    requires Fragmentable(c, data, total)
    ensures Progress(NewReassembly(rn, total, []), c, rn, data, total, {})
  {
    MulLe(0, total - 1, c.maxPayloadSize);
    var s := NewReassembly(rn, total, []);
    assert forall i: u16 :: i in s.notReceivedParts <==> i < total;
    assert total - 1 !in {};
  }

  /** An offset listed at position `a` of an order is fed exactly by the steps past `a`. */
  lemma FedOffsetsMember(order: seq<nat>, n: nat, k: nat, a: nat)
    requires IsOffsetOrder(order, n) && k <= n && a < n
    ensures order[a] in FedOffsets(order, k) <==> a < k
  {
    if order[a] in FedOffsets(order, k) {
      var b :| 0 <= b < k && order[b] == order[a];
      assert a == b;
    }
  }

  /** After every step, every offset was fed. */
  lemma AllFed(order: seq<nat>, n: nat)
    requires IsOffsetOrder(order, n)
    ensures forall i :: 0 <= i < n ==> i in FedOffsets(order, n)
  {
    forall i | 0 <= i < n ensures i in FedOffsets(order, n) {
      assert i in order;
      var a :| 0 <= a < n && order[a] == i;
      FedOffsetsMember(order, n, n, a);
    }
  }

  /** One more step feeds one more offset. */
  lemma FedOffsetsStep(order: seq<nat>, k: nat)
    requires 0 < k <= |order|
    ensures FedOffsets(order, k) == FedOffsets(order, k - 1) + {order[k - 1] as int}
  {
  }

  /** Feeding the first `k` elements is feeding the first `k - 1` and then element `k - 1`. */
  lemma FeedAllStep(s: Reassembly, ms: seq<TransportMessage>, k: nat)
    requires 0 < k <= |ms|
    ensures FeedAll(s, ms[..k]) == Assemble(FeedAll(s, ms[..k - 1]).0, ms[k - 1])
  {
    assert ms[..k][..k - 1] == ms[..k - 1];
  }

  /** Before the last fragment, the reassembler is in `Progress` and has returned nothing. */
  lemma {:induction false} FeedPrefix(c: MessageConstants, rn: RoutingNumber, data: seq<byte>, total: u16, order: seq<nat>, k: nat)
    requires Fragmentable(c, data, total) && IsOffsetOrder(order, total) && k < total
    ensures var ms := Reorder(Fragments(c, rn, data, total), order);
      var r := FeedAll(NewReassembly(rn, total, []), ms[..k]);
      r.1 == None && Progress(r.0, c, rn, data, total, FedOffsets(order, k))
  {
    var fs := Fragments(c, rn, data, total);
    var ms := Reorder(fs, order);
    var init := NewReassembly(rn, total, []);
    if k == 0 {
      assert ms[..0] == [];
      assert FedOffsets(order, 0) == {};
      ProgressInit(c, rn, data, total);
    } else {
      FeedPrefix(c, rn, data, total, order, k - 1);
      var prev := FeedAll(init, ms[..k - 1]);
      FeedAllStep(init, ms, k);
      var j: u16 := order[k - 1];
      assert ms[k - 1] == Fragment(c, rn, data, total, j);
      FedOffsetsMember(order, total, k - 1, k - 1);
      FedOffsetsStep(order, k);
      AssembleStep(prev.0, c, rn, data, total, FedOffsets(order, k - 1), j);
      FedOffsetsMember(order, total, k, total - 1);
      assert order[total - 1] !in FedOffsets(order, k - 1) + {j};
    }
  }

  /** Before the last fragment, no prefix of the feed yields a result. */
  lemma NoEarlyResult(c: MessageConstants, rn: RoutingNumber, data: seq<byte>, total: u16, order: seq<nat>)
    requires Fragmentable(c, data, total) && IsOffsetOrder(order, total)
    ensures var ms := Reorder(Fragments(c, rn, data, total), order);
      forall k :: 0 <= k < total ==> FeedAll(NewReassembly(rn, total, []), ms[..k]).1 == None
  {
    var ms := Reorder(Fragments(c, rn, data, total), order);
    forall k | 0 <= k < total ensures FeedAll(NewReassembly(rn, total, []), ms[..k]).1 == None {
      FeedPrefix(c, rn, data, total, order, k);
    }
  }

  /**
   * The round trip: every fragment fed once, in any order, into a reassembler
   * that starts from an empty buffer gives None until the last one and then
   * exactly the data.
   */
  lemma ReassembleAnyOrder(c: MessageConstants, rn: RoutingNumber, data: seq<byte>, total: u16, order: seq<nat>)
    requires Fragmentable(c, data, total) && IsOffsetOrder(order, total)
    ensures var ms := Reorder(Fragments(c, rn, data, total), order);
      && FeedAll(NewReassembly(rn, total, []), ms).1 == Some(data)
      && forall k :: 0 <= k < total ==> FeedAll(NewReassembly(rn, total, []), ms[..k]).1 == None
  {
    var fs := Fragments(c, rn, data, total);
    var ms := Reorder(fs, order);
    var init := NewReassembly(rn, total, []);
    NoEarlyResult(c, rn, data, total, order);
    FeedPrefix(c, rn, data, total, order, total - 1);
    var prev := FeedAll(init, ms[..total - 1]);
    FeedAllStep(init, ms, total);
    assert ms[..total] == ms;
    var j: u16 := order[total - 1];
    assert ms[total - 1] == Fragment(c, rn, data, total, j);
    FedOffsetsMember(order, total, total - 1, total - 1);
    FedOffsetsStep(order, total);
    AllFed(order, total);
    AssembleStep(prev.0, c, rn, data, total, FedOffsets(order, total - 1), j);
  }

  /** In offset order in particular. */
  lemma ReassembleInOrder(c: MessageConstants, rn: RoutingNumber, data: seq<byte>, total: u16)
    requires Fragmentable(c, data, total)
    ensures FeedAll(NewReassembly(rn, total, []), Fragments(c, rn, data, total)).1 == Some(data)
  {
    var order := seq(total, (i: int) requires 0 <= i < total => i as nat);
    forall i | 0 <= i < total ensures i in order {
      assert order[i] == i;
    }
    var fs := Fragments(c, rn, data, total);
    assert Reorder(fs, order) == fs;
    ReassembleAnyOrder(c, rn, data, total, order);
  }
}

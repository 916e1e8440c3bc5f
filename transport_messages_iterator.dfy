/**
 * The fragmenter: splits one encoded routing message into `len / P + 1`
 * fragments of at most `P` bytes each (`P` the payload cap), all tagged with
 * the same routing number.
 */
module TransportMessagesIterators {
  import opened Primitives
  import opened RoutingNumbers
  import opened Messages

  datatype TransportError = EncodingFailed | MessageLengthExceeded

  datatype Result<+T> = Ok(value: T) | Err(error: TransportError)

  lemma MulLe(a: nat, b: nat, p: nat)
    requires a <= b
    ensures a * p <= b * p
  {
  }

  /** One more block is `p` further on. */
  lemma MulSucc(k: nat, p: nat)
    requires k > 0
    ensures (k - 1) * p + p == k * p
  {
  }

  /** The quotient's block holds the dividend: `q * p <= n < q * p + p` for `q = n / p`. */
  lemma DivBlock(n: nat, p: nat)
    requires p > 0
    ensures (n / p) * p <= n < (n / p) * p + p
    ensures n - (n / p) * p == n % p
  {
  }

  /** The quotient is the only `q` whose block holds the dividend. */
  lemma DivUnique(n: nat, p: nat, q: nat)
    requires p > 0 && q * p <= n < q * p + p
    ensures n / p == q && n % p == n - q * p
  {
    DivBlock(n, p);
    if n / p < q {
      MulLe(n / p + 1, q, p);
    } else if n / p > q {
      MulLe(q + 1, n / p, p);
    }
  }

  /** Bounds on a multiple below `U16_MAX` blocks. */
  lemma BlockCountBound(n: nat, p: nat)
    requires p > 0
    ensures n / p + 1 > U16_MAX <==> n >= U16_MAX * p
  {
    DivBlock(n, p);
    if n / p + 1 > U16_MAX {
      MulLe(U16_MAX, n / p, p);
    } else {
      MulLe(n / p + 1, U16_MAX, p);
    }
  }

  /**
   * The fragment count of `new`: fails above 16 MiB or when `len / P + 1` does
   * not fit in a `u16`. On success it is the number `t` of `P`-byte blocks
   * with `(t - 1) * P <= len < t * P`, so a length that is a multiple of `P`
   * gets one extra, empty block.
   */
  function FragmentCount(len: nat, c: MessageConstants): (r: Result<u16>)
    requires c.Valid()
    ensures r.Err? <==> len > MAX_MESSAGE_SIZE || len >= U16_MAX * c.maxPayloadSize
    ensures r.Err? ==> r.error == MessageLengthExceeded
    ensures r.Ok? ==> 1 <= r.value && (r.value - 1) * c.maxPayloadSize <= len < r.value * c.maxPayloadSize
  {
    if len > MAX_MESSAGE_SIZE then Err(MessageLengthExceeded)
    else
      var total := len / c.maxPayloadSize + 1;
      BlockCountBound(len, c.maxPayloadSize);
      DivBlock(len, c.maxPayloadSize);
      if total > U16_MAX then Err(MessageLengthExceeded) else Ok(total)
  }

  /** The encoded messages that `new` accepts, with their fragment count. */
  ghost predicate Fragmentable(c: MessageConstants, data: seq<byte>, total: u16) {
    c.Valid() && FragmentCount(|data|, c) == Ok(total)
  }

  /** Where fragment `offset` ends: the end of the data for the last one, else one block on. */
  function PartEnd(c: MessageConstants, data: seq<byte>, total: u16, offset: u16): (e: nat)
    requires Fragmentable(c, data, total) && offset < total
    ensures offset * c.maxPayloadSize <= e <= |data|
    ensures offset + 1 < total ==> e == offset * c.maxPayloadSize + c.maxPayloadSize
  {
    if offset + 1 == total then
      MulLe(offset, total - 1, c.maxPayloadSize);
      |data|
    else
      MulLe(offset + 1, total - 1, c.maxPayloadSize);
      offset * c.maxPayloadSize + c.maxPayloadSize
  }

  /** Fragment number `offset` of `data`, as `next` builds it. */
  function Fragment(c: MessageConstants, rn: RoutingNumber, data: seq<byte>, total: u16, offset: u16): (m: TransportMessage)
    requires Fragmentable(c, data, total) && offset < total
    ensures m.version == c.currentVersion && m.routingNumber == rn
    ensures m.offset == offset && m.total == total
  {
    var begin := offset * c.maxPayloadSize;
    var end := PartEnd(c, data, total, offset);
    TransportMessage(c.currentVersion, rn, offset, total, data[begin..end])
  }

  /** Every fragment, in the order `next` yields them. */
  function Fragments(c: MessageConstants, rn: RoutingNumber, data: seq<byte>, total: u16): (fs: seq<TransportMessage>)
    requires Fragmentable(c, data, total)
    ensures |fs| == total
    ensures forall i :: 0 <= i < |fs| ==> fs[i] == Fragment(c, rn, data, total, i)
  {
    seq(total, (i: int) requires 0 <= i < total && Fragmentable(c, data, total) => Fragment(c, rn, data, total, i))
  }

  /** All payloads, concatenated in offset order. */
  function Payloads(fs: seq<TransportMessage>): seq<byte> {
    if fs == [] then [] else Payloads(fs[..|fs| - 1]) + fs[|fs| - 1].payload
  }

  /**
   * The byte ranges of the fragments: a non-final fragment carries exactly `P`
   * bytes at `[offset * P, (offset + 1) * P)`; the final one carries the rest,
   * `len % P` bytes, which is none when `len` is a multiple of `P`.
   */
  lemma FragmentPayload(c: MessageConstants, rn: RoutingNumber, data: seq<byte>, total: u16, offset: u16)
    requires Fragmentable(c, data, total) && offset < total
    ensures var m := Fragment(c, rn, data, total, offset);
      var p := c.maxPayloadSize;
      && (offset + 1 < total ==> m.payload == data[offset * p .. offset * p + p] && |m.payload| == p)
      && (offset + 1 == total ==> m.payload == data[offset * p ..] && |m.payload| == |data| % p)
  {
    var p := c.maxPayloadSize;
    if offset + 1 == total {
      MulSucc(total, p);
      DivUnique(|data|, p, offset);
    }
  }

  /** The final fragment is empty exactly when the length is a multiple of `P`. */
  lemma LastFragmentEmptyIffMultiple(c: MessageConstants, rn: RoutingNumber, data: seq<byte>, total: u16)
    requires Fragmentable(c, data, total)
    ensures Fragment(c, rn, data, total, total - 1).payload == [] <==> |data| % c.maxPayloadSize == 0
  {
    FragmentPayload(c, rn, data, total, total - 1);
  }

  /** Adding one more fragment to a prefix appends its payload. */
  lemma PayloadsSnoc(fs: seq<TransportMessage>, k: nat)
    requires 0 < k <= |fs|
    ensures Payloads(fs[..k]) == Payloads(fs[..k - 1]) + fs[k - 1].payload
  {
    assert fs[..k][..k - 1] == fs[..k - 1];
  }

  lemma ConcatSlices(data: seq<byte>, a: nat, b: nat)
    requires a <= b <= |data|
    ensures data[..a] + data[a .. b] == data[..b]
  {
  }

  /** The first `k` fragments cover exactly the first `k` blocks of the data. */
  lemma {:induction false} PayloadsPrefix(c: MessageConstants, rn: RoutingNumber, data: seq<byte>, total: u16, k: nat)
    requires Fragmentable(c, data, total) && k < total
    ensures k * c.maxPayloadSize <= |data|
    ensures Payloads(Fragments(c, rn, data, total)[..k]) == data[..k * c.maxPayloadSize]
  {
    var p := c.maxPayloadSize;
    var fs := Fragments(c, rn, data, total);
    MulLe(k, total - 1, p);
    if k > 0 {
      var a := (k - 1) * p;
      var b := k * p;
      MulSucc(k, p);
      PayloadsPrefix(c, rn, data, total, k - 1);
      FragmentPayload(c, rn, data, total, k - 1);
      assert fs[k - 1].payload == data[a .. b];
      PayloadsSnoc(fs, k);
      ConcatSlices(data, a, b);
    }
  }

  /** Concatenating every payload in offset order gives back the data. */
  lemma PayloadsReassemble(c: MessageConstants, rn: RoutingNumber, data: seq<byte>, total: u16)
    requires Fragmentable(c, data, total)
    ensures Payloads(Fragments(c, rn, data, total)) == data
  {
    var fs := Fragments(c, rn, data, total);
    PayloadsPrefix(c, rn, data, total, total - 1);
    FragmentPayload(c, rn, data, total, total - 1);
    assert fs[..total] == fs;
    assert fs[..total][..total - 1] == fs[..total - 1];
    assert data[..(total - 1) * c.maxPayloadSize] + data[(total - 1) * c.maxPayloadSize ..] == data;
  }

  /**
   * `TransportMessagesIterator`: the encoded routing message, its fragment
   * count and routing number, and the cursor `offset` that `next` advances.
   */
  class TransportMessagesIterator {
    const constants: MessageConstants
    const currentRoutingNumber: RoutingNumber
    const total: u16
    const data: seq<byte>
    var offset: u16

    ghost predicate Valid()
      reads this
    {
      Fragmentable(constants, data, total) && offset <= total
    }

    /** The fragments still to be yielded. */
    ghost function Remaining(): seq<TransportMessage>
      reads this
      requires Valid()
    {
      Fragments(constants, currentRoutingNumber, data, total)[offset..]
    }

    constructor (c: MessageConstants, rn: RoutingNumber, data: seq<byte>, total: u16)
      requires Fragmentable(c, data, total)
      ensures Valid()
      ensures constants == c && currentRoutingNumber == rn && this.data == data && this.total == total
      ensures offset == 0 && Remaining() == Fragments(c, rn, data, total)
    {
      constants := c;
      currentRoutingNumber := rn;
      this.data := data;
      this.total := total;
      offset := 0;
    }

    /**
     * `new`: `encoded` is the CBOR encoding of the routing message, or None when
     * that encoding failed. Fails when the encoding is too long for 16 MiB or
     * for a `u16` fragment count; otherwise the cursor starts at offset 0.
     */
    static method New(c: MessageConstants, rn: RoutingNumber, encoded: Option<seq<byte>>)
      returns (r: Result<TransportMessagesIterator>)
      requires c.Valid()
      ensures encoded.None? ==> r == Err(EncodingFailed)
      ensures encoded.Some? ==> (r.Err? <==> FragmentCount(|encoded.value|, c).Err?)
      ensures r.Err? && encoded.Some? ==> r.error == MessageLengthExceeded
      ensures r.Ok? ==>
        && encoded.Some? && fresh(r.value) && r.value.Valid() && r.value.offset == 0
        && r.value.data == encoded.value && r.value.currentRoutingNumber == rn && r.value.constants == c
        && Ok(r.value.total) == FragmentCount(|encoded.value|, c)
    {
      if encoded.None? {
        return Err(EncodingFailed);
      }
      var routingMessage := encoded.value;
      if |routingMessage| > MAX_MESSAGE_SIZE {
        return Err(MessageLengthExceeded);
      }
      var total := |routingMessage| / c.maxPayloadSize + 1;
      if total > U16_MAX {
        return Err(MessageLengthExceeded);
      }
      var it := new TransportMessagesIterator(c, rn, routingMessage, total);
      return Ok(it);
    }

    /**
     * `Iterator::next`. None once every fragment was yielded. Otherwise the next
     * fragment of `Remaining()`; `encodes` says whether the external encoder
     * accepts it. On success the cursor moves on, on failure an error is
     * returned and the cursor stays, so the same fragment comes next.
     */
    method Next(encodes: TransportMessage -> bool) returns (item: Option<Result<TransportMessage>>)
      requires Valid()
      modifies this
      ensures Valid()
      ensures old(offset) == total ==> item == None && offset == old(offset)
      ensures old(offset) < total ==>
        var part := old(Remaining())[0];
        && part == Fragment(constants, currentRoutingNumber, data, total, old(offset))
        && (encodes(part) ==> item == Some(Ok(part)) && Remaining() == old(Remaining())[1..])
        && (!encodes(part) ==> item == Some(Err(EncodingFailed)) && offset == old(offset))
    {
      if offset == total {
        return None;
      }
      var dataOffsetBegin := offset * constants.maxPayloadSize;
      var dataOffsetEnd := if offset + 1 == total then |data| else dataOffsetBegin + constants.maxPayloadSize;
      MulLe(offset, total - 1, constants.maxPayloadSize);
      if offset + 1 != total {
        MulLe(offset + 1, total - 1, constants.maxPayloadSize);
      }
      var part := TransportMessage(constants.currentVersion, currentRoutingNumber, offset, total,
                                   data[dataOffsetBegin..dataOffsetEnd]);
      assert part == Fragment(constants, currentRoutingNumber, data, total, offset);
      if encodes(part) {
        offset := offset + 1;
        item := Some(Ok(part));
      } else {
        item := Some(Err(EncodingFailed));
      }
    }
  }
}

/**
 * The 16-bit routing number that tags every fragment of one routing message.
 * Arithmetic wraps modulo 2^16 and comparison is circular: `a < b` when `b` lies
 * in the half of the number space that starts just after `a`.
 */
module RoutingNumbers {
  import opened Primitives

  const MODULUS: nat := 0x1_0000

  /** Half of the number space, `u16::MAX / 2 + 1`. */
  const HALF: u16 := U16_MAX / 2 + 1

  datatype RoutingNumber = RoutingNumber(value: u16)

  datatype Ordering = Less | Equal | Greater

  /** `u16::overflowing_add`: the wrapped sum and whether it wrapped. */
  function OverflowingAdd(a: u16, b: u16): (r: (u16, bool))
    ensures r.0 == (a + b) % MODULUS
    ensures r.1 <==> a + b >= MODULUS
    ensures r.1 <==> r.0 < a
  {
    if a + b > U16_MAX then (a + b - MODULUS, true) else (a + b, false)
  }

  /** `u16::wrapping_add`: the sum modulo 2^16. */
  function WrappingAdd(a: u16, b: u16): (r: u16)
    ensures r == (a + b) % MODULUS
  {
    if a + b > U16_MAX then a + b - MODULUS else a + b
  }

  /** `u16::wrapping_sub`: the difference modulo 2^16. */
  function WrappingSub(a: u16, b: u16): (r: u16)
    ensures r == (a - b) % MODULUS
  {
    if a >= b then a - b else a - b + MODULUS
  }

  /** How far `to` lies ahead of `from`, counting forward with wrap-around. */
  function Distance(from: RoutingNumber, to: RoutingNumber): (d: nat)
    ensures d < MODULUS
    ensures WrappingAdd(from.value, d) == to.value
  {
    WrappingSub(to.value, from.value)
  }

  function New(value: u16): (r: RoutingNumber)
    ensures r.value == value
  {
    RoutingNumber(value)
  }

  /**
   * `Ord::cmp`. Equal exactly on equal values; otherwise `self < other` exactly
   * when `other` is 1 to 32768 steps ahead of `self`.
   */
  function Cmp(self: RoutingNumber, other: RoutingNumber): (r: Ordering)
    ensures r == Equal <==> self == other
    ensures r == Less <==> self != other && 1 <= Distance(self, other) <= HALF
    ensures r == Greater <==> self != other && Distance(self, other) > HALF
  {
    if self.value == other.value then Equal
    else
      var (selfOpposite, overflow) := OverflowingAdd(self.value, HALF);
      if overflow then
        if self.value > other.value && other.value > selfOpposite then Greater else Less
      else
        if self.value < other.value && other.value <= selfOpposite then Less else Greater
  }

  /** `a < b` as derived by `PartialOrd` from `cmp`. */
  predicate Lt(a: RoutingNumber, b: RoutingNumber)
    ensures Lt(a, b) <==> a != b && 1 <= Distance(a, b) <= HALF
  {
    Cmp(a, b) == Less
  }

  /** `a > b` as derived by `PartialOrd` from `cmp`. */
  predicate Gt(a: RoutingNumber, b: RoutingNumber)
    ensures Gt(a, b) <==> a != b && Distance(a, b) > HALF
  {
    Cmp(a, b) == Greater
  }

  /** `AddAssign<u16>`: the value that `n += rhs` leaves behind. */
  function AddAssign(n: RoutingNumber, rhs: u16): (r: RoutingNumber)
    ensures Distance(n, r) == rhs
  {
    RoutingNumber(WrappingAdd(n.value, rhs))
  }

  /** `Add<u16>`, whose output is the raw `u16`. */
  function Add(n: RoutingNumber, rhs: u16): (r: u16)
    ensures Distance(n, RoutingNumber(r)) == rhs
  {
    AddAssign(n, rhs).value
  }

  /** `Sub<Self>`: the wrapping difference. */
  function Sub(self: RoutingNumber, rhs: RoutingNumber): (r: u16)
    ensures AddAssign(rhs, r) == self
  {
    WrappingSub(self.value, rhs.value)
  }

  /** `increment`, that is `*self += 1`. */
  function Increment(n: RoutingNumber): (r: RoutingNumber)
    ensures r.value == if n.value == U16_MAX then 0 else n.value + 1
  {
    AddAssign(n, 1)
  }

  /** Subtraction undoes addition, for every step `k`. */
  lemma SubAfterAdd(a: RoutingNumber, k: u16)
    ensures Sub(AddAssign(a, k), a) == k
  {
  }

  /** Adding the difference lands on the minuend. */
  lemma AddAfterSub(a: RoutingNumber, b: RoutingNumber)
    ensures AddAssign(b, Sub(a, b)) == a
  {
  }

  /** The difference is the forward distance. */
  lemma SubIsDistance(a: RoutingNumber, b: RoutingNumber)
    ensures Sub(a, b) == Distance(b, a)
  {
  }

  /**
   * Two steps compose: adding `j` then `k` is adding `j + k` modulo 2^16.
   */
  lemma AddAssignTwice(n: RoutingNumber, j: u16, k: u16)
    ensures AddAssign(AddAssign(n, j), k) == AddAssign(n, WrappingAdd(j, k))
  {
  }

  /**
   * Away from the halfway point the order is antisymmetric: `a < b` exactly
   * when `b > a`.
   */
  lemma CmpAntisymmetric(a: RoutingNumber, b: RoutingNumber)
    requires Distance(a, b) != HALF
    ensures Lt(a, b) <==> Gt(b, a)
  {
    if a != b {
      assert Distance(b, a) == MODULUS - Distance(a, b);
    }
  }

  /** Exactly halfway round, each number is below the other. */
  lemma HalfwayBothLess(a: RoutingNumber, b: RoutingNumber)
    requires Distance(a, b) == HALF
    ensures Lt(a, b) && Lt(b, a)
  {
    assert Distance(b, a) == MODULUS - Distance(a, b);
  }

  /**
   * Within less than half the space, comparison follows emission order:
   * a number emitted `k` steps later is greater.
   */
  lemma CmpFollowsEmissionOrder(a: RoutingNumber, k: u16)
    requires 1 <= k < HALF
    ensures Lt(a, AddAssign(a, k)) && Gt(AddAssign(a, k), a)
  {
    var b := AddAssign(a, k);
    assert Distance(b, a) == MODULUS - k;
  }

  /** The orderings the source's unit tests check. */
  lemma ComparisonExamples()
    ensures Lt(New(5), New(6)) && Gt(New(6), New(5)) && Cmp(New(5), New(5)) == Equal
    ensures Lt(New(U16_MAX), New(0))
    ensures Gt(New(U16_MAX), New(U16_MAX - 1))
    ensures Gt(New(0), New(U16_MAX))
  {
  }

  /** Incrementing the largest number wraps to zero. */
  lemma IncrementOverflow()
    ensures Increment(New(U16_MAX)) == New(0)
  {
  }
}

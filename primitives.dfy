/** Fixed-width integer types and the optional value used throughout the UDP transport model. */
module Primitives {

  /** Rust `u8`. */
  type u8 = x: int | 0 <= x < 0x100

  /** A byte of an encoded message. */
  type byte = u8

  /** Rust `u16`. */
  type u16 = x: int | 0 <= x < 0x1_0000

  const U16_MAX: u16 := 0xFFFF

  /** Rust `Option<T>`. */
  datatype Option<+T> = None | Some(value: T)

  function Min(a: nat, b: nat): (r: nat)
    ensures r <= a && r <= b && (r == a || r == b)
  {
    if a <= b then a else b
  }

  /** `n` zero bytes, what `Vec::resize(_, 0)` appends. */
  function Zeros(n: nat): (r: seq<byte>)
    ensures |r| == n && forall k :: 0 <= k < n ==> r[k] == 0
  {
    seq(n, _ => 0)
  }
}

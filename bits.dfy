/** Machine integer widths of the C/C++/Rust sources, and the two places where
    C arithmetic differs from Dafny's: wrap-around and truncating division. */
module Bits {

  const TWO8: int := 0x100
  const TWO16: int := 0x1_0000
  const TWO31: int := 0x8000_0000
  const TWO32: int := 0x1_0000_0000
  const TWO63: int := 0x8000_0000_0000_0000
  const TWO64: int := 0x1_0000_0000_0000_0000

  type u8 = x: int | 0 <= x < TWO8
  type u16 = x: int | 0 <= x < TWO16
  type u32 = x: int | 0 <= x < TWO32
  type u64 = x: int | 0 <= x < TWO64
  type i32 = x: int | -TWO31 <= x < TWO31
  type i64 = x: int | -TWO63 <= x < TWO63

  /** Conversion to a signed 32-bit value the way two's-complement hardware
      does it (an `(INT32)` cast of a wider value, or a wrapping INT32 add). */
  function WrapI32(x: int): (r: i32)
    ensures (r - x) % TWO32 == 0
    ensures -TWO31 <= x < TWO31 ==> r == x
  {
    (x + TWO31) % TWO32 - TWO31
  }

  /** C's `/` on signed integers: the quotient is truncated toward zero
      (Dafny's own `/` is Euclidean). */
  function TruncDiv(a: int, b: int): (q: int)
    requires b != 0
    ensures a >= 0 && b > 0 ==> q == a / b
    ensures a < 0 && b > 0 ==> q == -((-a) / b)
  {
    if b > 0 then (if a >= 0 then a / b else -((-a) / b))
    else (if a >= 0 then -(a / -b) else (-a) / (-b))
  }
}

/** The fixed-width integer types of the source, over Dafny's unbounded `int`. */
module Ints {

  const U8_MAX: int := 0xFF
  const U16_MAX: int := 0xFFFF
  const U32_MAX: int := 0xFFFF_FFFF
  const I32_MIN: int := -0x8000_0000
  const I32_MAX: int := 0x7FFF_FFFF

  predicate InU8(n: int) { 0 <= n <= U8_MAX }
  predicate InU16(n: int) { 0 <= n <= U16_MAX }
  predicate InU32(n: int) { 0 <= n <= U32_MAX }
  predicate InI32(n: int) { I32_MIN <= n <= I32_MAX }

  /** Two's-complement wrap-around of `n` into `i32` (release-build arithmetic). */
  function WrapI32(n: int): (r: int)
    ensures InI32(r)
    ensures InI32(n) ==> r == n
    ensures (r - n) % 0x1_0000_0000 == 0
  {
    (n - I32_MIN) % 0x1_0000_0000 + I32_MIN
  }

  /** `n.try_into().unwrap_or_default()` into `u16`: the value if it fits, else 0. */
  function U16OrZero(n: int): (r: int)
    ensures InU16(r)
    ensures InU16(n) ==> r == n
    ensures !InU16(n) ==> r == 0
  {
    if InU16(n) then n else 0
  }

  /** A real number truncated toward zero, as Rust's `x as i32` does for finite values in range. */
  function TruncReal(x: real): (n: int)
    ensures x >= 0.0 ==> n as real <= x < n as real + 1.0
    ensures x < 0.0 ==> n as real - 1.0 < x <= n as real
  {
    if x >= 0.0 then x.Floor else -((-x).Floor)
  }
}

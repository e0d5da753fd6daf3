/** Java's fixed-width integers. `int32` is the range of `int`/`Integer`,
    `int64` the range of `long`/`Long`. Arithmetic on them wraps around
    (two's complement); `Add` writes that out. */
module JavaInt {

  const INT_MIN: int := -0x8000_0000
  const INT_MAX: int := 0x7fff_ffff
  const TWO_32: int := 0x1_0000_0000

  type int32 = x: int | INT_MIN <= x <= INT_MAX
  type int64 = x: int | -0x8000_0000_0000_0000 <= x <= 0x7fff_ffff_ffff_ffff

  /** Java's `a + b` on two `int`s: the mathematical sum reduced into the
      32-bit range, so an overflow by at most one word shifts by 2^32. */
  function Add(a: int32, b: int32): (r: int32)
    ensures INT_MIN <= a + b <= INT_MAX ==> r == a + b
    ensures a + b > INT_MAX ==> r == a + b - TWO_32
    ensures a + b < INT_MIN ==> r == a + b + TWO_32
  {
    (a + b - INT_MIN) % TWO_32 + INT_MIN
  }
}

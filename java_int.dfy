/** Java's 32-bit two's-complement `int` and its wrap-around arithmetic. */
module JavaInt {

  const TWO_31: int := 0x8000_0000
  const TWO_32: int := 0x1_0000_0000

  /** The values a Java `int` can hold. */
  type Int32 = x: int | -0x8000_0000 <= x < 0x8000_0000

  /** The Java `int` that an overflowing computation with mathematical result `x` yields. */
  function Wrap(x: int): (r: Int32)
    ensures -TWO_31 <= x < TWO_31 ==> r == x
    ensures (x - r) % TWO_32 == 0
  {
    (x + TWO_31) % TWO_32 - TWO_31
  }
}

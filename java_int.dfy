/** Java's 32-bit `int` and its wrap-around arithmetic. */
module JavaInt {

  const INT_MIN: int := -0x8000_0000
  const INT_MAX: int := 0x7fff_ffff
  const TWO_32: int := 0x1_0000_0000

  type Int32 = x: int | INT_MIN <= x <= INT_MAX

  /** The `int` a Java `int` operation yields for the exact result `x`: `x` modulo 2^32, in the signed range. */
  function Wrap(x: int): (r: Int32)
    ensures (r - x) % TWO_32 == 0
    ensures INT_MIN <= x <= INT_MAX ==> r == x
  {
    (x - INT_MIN) % TWO_32 + INT_MIN
  }

  /** A result above `INT_MAX` and below 2^32 wraps around to a negative `int`. */
  lemma WrapAbove(x: int)
    requires INT_MAX < x < TWO_32
    ensures Wrap(x) == x - TWO_32 && Wrap(x) < 0
  {
  }
}

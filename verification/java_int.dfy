/**
 Java's 32-bit `int` arithmetic, written out explicitly: Dafny integers are
 unbounded, while a Java `int` product silently wraps modulo 2^32.
 */
module JavaInt {

  const TWO_POW_32: int := 0x1_0000_0000
  const INT_MIN: int := -0x8000_0000
  const INT_MAX: int := 0x7FFF_FFFF

  /** True iff `x` is representable as a Java `int`. */
  predicate IsInt(x: int) {
    INT_MIN <= x <= INT_MAX
  }

  /** The Java `int` that the mathematical integer `x` is truncated to. */
  function Wrap(x: int): (r: int)
    ensures IsInt(r)
    ensures (x - r) % TWO_POW_32 == 0
    ensures IsInt(x) ==> r == x
  {
    (x - INT_MIN) % TWO_POW_32 + INT_MIN
  }

  /** Java's `a * b` on two `int` operands. */
  function Mul(a: int, b: int): (r: int)
    requires IsInt(a) && IsInt(b)
    ensures IsInt(r)
    // the low 32 bits of the true product, as a signed value
    ensures (a * b - r) % TWO_POW_32 == 0
    ensures IsInt(a * b) ==> r == a * b
  {
    Wrap(a * b)
  }
}

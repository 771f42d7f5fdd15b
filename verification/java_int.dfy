/** Java's 32-bit two's-complement `int` arithmetic on top of Dafny's
    unbounded integers. */
module JavaInt {

  const TWO_32: int := 0x1_0000_0000
  const MIN_INT: int := -0x8000_0000
  const MAX_INT: int := 0x7fff_ffff

  /** True iff `x` is representable as a Java `int`. */
  predicate IsInt(x: int) {
    MIN_INT <= x <= MAX_INT
  }

  /** The Java `int` that the mathematical value `x` wraps around to. */
  function Wrap(x: int): (r: int)
    ensures IsInt(r)
    ensures (r - x) % TWO_32 == 0
    ensures IsInt(x) ==> r == x
  {
    (x - MIN_INT) % TWO_32 + MIN_INT
  }
}

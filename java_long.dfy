/** Java's 64-bit `long`: its range and its two's-complement wrap-around. */
module JavaLong {

  const MIN_LONG: int := -0x8000_0000_0000_0000
  const MAX_LONG: int := 0x7FFF_FFFF_FFFF_FFFF
  const LONG_MODULUS: int := 0x1_0000_0000_0000_0000

  predicate IsLong(x: int) {
    MIN_LONG <= x <= MAX_LONG
  }

  /** The `long` that Java's arithmetic leaves when the exact result is `x`. */
  function Wrap(x: int): (r: int)
    ensures IsLong(r)
    ensures (r - x) % LONG_MODULUS == 0
    ensures IsLong(x) ==> r == x
  {
    (x - MIN_LONG) % LONG_MODULUS + MIN_LONG
  }

  /** Negating `Long.MIN_VALUE` gives `Long.MIN_VALUE` back. */
  lemma NegateMinLong()
    ensures Wrap(-MIN_LONG) == MIN_LONG
  {
  }
}

/**
 * Java's fixed-width integer arithmetic on top of Dafny's unbounded `int`:
 * narrowing to `int`/`long` keeps the low bits in two's complement.
 */
module JavaInt {

  const TWO_32: int := 0x1_0000_0000
  const TWO_64: int := 0x1_0000_0000_0000_0000
  const INT_MIN: int := -0x8000_0000
  const INT_MAX: int := 0x7FFF_FFFF
  const LONG_MIN: int := -0x8000_0000_0000_0000
  const LONG_MAX: int := 0x7FFF_FFFF_FFFF_FFFF

  predicate IsInt(v: int) { INT_MIN <= v <= INT_MAX }

  predicate IsLong(v: int) { LONG_MIN <= v <= LONG_MAX }

  /** The Java `int` holding the low 32 bits of `v` (an `int` overflow or an `(int)` cast). */
  function Wrap32(v: int): (r: int)
    ensures IsInt(r)
    ensures (v - r) % TWO_32 == 0
    ensures IsInt(v) ==> r == v
  {
    (v - INT_MIN) % TWO_32 + INT_MIN
  }

  /** The Java `long` holding the low 64 bits of `v`. */
  function Wrap64(v: int): (r: int)
    ensures IsLong(r)
    ensures (v - r) % TWO_64 == 0
    ensures IsLong(v) ==> r == v
  {
    (v - LONG_MIN) % TWO_64 + LONG_MIN
  }

  /** Two Java `int`s that agree in their low 32 bits are the same value. */
  lemma Wrap32Unique(a: int, b: int)
    requires IsInt(a) && IsInt(b)
    requires (a - b) % TWO_32 == 0
    ensures a == b
  {
  }

  /** A value that is 0 modulo 2^32 is a whole number of 2^32 steps. */
  lemma DivisibleIsMultiple(d: int)
    requires d % TWO_32 == 0
    ensures d == (d / TWO_32) * TWO_32
  {
  }

  /** A whole number of 2^32 steps is 0 modulo 2^32. */
  lemma MultipleIsDivisible(d: int, q: int)
    requires d == q * TWO_32
    ensures d % TWO_32 == 0
  {
  }

}

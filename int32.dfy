/**
 * Java's 32-bit signed `int`. The message counter is declared as an `int`
 * and `messageCount++` wraps from 2^31 - 1 to -2^31 without any check, so the
 * model keeps that wrap-around explicit instead of using unbounded integers.
 */
module Int32 {
  const MinInt32: int := -0x8000_0000
  const MaxInt32: int := 0x7FFF_FFFF
  const Modulus: int := 0x1_0000_0000

  predicate InRange(x: int) {
    MinInt32 <= x <= MaxInt32
  }

  /** The two's-complement value Java stores for the mathematical result `x`. */
  function Wrap(x: int): (r: int)
    ensures InRange(r)
    ensures InRange(x) ==> r == x
    ensures (x - r) % Modulus == 0
  {
    var q := (x - MinInt32) / Modulus;
    assert x - MinInt32 == q * Modulus + (x - MinInt32) % Modulus;
    (x - MinInt32) % Modulus + MinInt32
  }

  /** Incrementing the largest `int` yields the smallest one. */
  lemma IncrementAtMaxWraps()
    ensures Wrap(MaxInt32 + 1) == MinInt32
  {
  }
}

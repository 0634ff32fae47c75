/**
 * Products of reals that proofs carry without looking into them, and the
 * conversion of a real number to an unsigned int.
 */
module Reals {
  import opened Basics
  import opened Bytes

  function Times(x: real, y: real): real
  {
    x * y
  }

  lemma TimesSum(x: real, y: real, z: real)
    ensures Times(x, y + z) == Times(x, y) + Times(x, z)
    ensures Times(y + z, x) == Times(y, x) + Times(z, x)
    ensures Times(1.0, x) == x == Times(x, 1.0)
  {
  }

  lemma TimesZero(x: real)
    ensures Times(x, 0.0) == 0.0 == Times(0.0, x)
  {
  }

  lemma TimesNotNegative(x: real, y: real)
    requires x >= 0.0 && y >= 0.0
    ensures Times(x, y) >= 0.0
  {
  }

  lemma TimesPositive(x: real, y: real)
    requires x > 0.0 && y > 0.0
    ensures Times(x, y) > 0.0
  {
  }

  lemma DivideBack(x: real, n: real)
    requires n > 0.0
    ensures Times(n, x / n) == x == Times(x / n, n)
  {
  }

  /** The whole number next to x towards zero. */
  function Truncated(x: real): (n: int)
    ensures x >= 0.0 ==> n as real <= x < n as real + 1.0
    ensures x <= 0.0 ==> n as real - 1.0 < x <= n as real
  {
    if x >= 0.0 then x.Floor else -((-x).Floor)
  }

  /** What C leaves undefined, a whole part that is negative or too large, has no value. */
  function ToUnsigned(x: real): (n: Option<uint32>)
    ensures n.Some? <==> -1.0 < x < 4294967296.0
    ensures n.Some? ==> n.value == Truncated(x)
  {
    if -1.0 < x < 4294967296.0 then Some(Truncated(x)) else None
  }
}

/** Facts about integer arithmetic that the solver does not find unaided. */
module Arithmetic {
  /** Multiplying by a non-negative factor keeps the order. */
  lemma MulMonotone(a: int, b: int, m: nat)
    requires a <= b
    ensures a * m <= b * m
  {
    assert b * m - a * m == (b - a) * m;
  }

  /** Multiplication distributes over addition. */
  lemma MulDistributes(t: int, a: int, b: int)
    ensures t * (a + b) == t * a + t * b
  {
  }

  /** A positive common factor can be cancelled from an inequality. */
  lemma MulCancel(a: int, b: int, t: int)
    requires t > 0 && t * a <= t * b
    ensures a <= b
  {
    MulDistributes(t, a, b - a);
  }

  /** A positive common factor can be cancelled from a strict inequality. */
  lemma MulCancelStrict(a: int, b: int, t: int)
    requires t > 0 && t * a < t * b
    ensures a < b
  {
    MulDistributes(t, a, b - a);
  }
}

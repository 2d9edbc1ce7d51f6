/** Quotients of integers as reals. */
module Fractions {

  lemma Ratio(x: int, y: int)
    requires 0 <= x <= y && 1 <= y
    ensures 0.0 <= x as real / y as real <= 1.0
    ensures x as real / y as real == 1.0 <==> x == y
    ensures x as real / y as real == 0.0 <==> x == 0
  {
    assert x as real / y as real * y as real == x as real;
  }

  lemma RatioMonotone(a: int, b: int, y: int)
    requires a <= b && 1 <= y
    ensures a as real / y as real <= b as real / y as real
  {
    assert b as real / y as real - a as real / y as real == (b - a) as real / y as real;
  }

  lemma RealRatio(x: real, y: int)
    requires 0.0 <= x <= y as real && 1 <= y
    ensures 0.0 <= x / y as real <= 1.0
  {
    assert x / y as real * y as real == x;
  }
}

/** Magnitude, maximum and a few facts about products and quotients of reals. */
module RealFacts {
  function Abs(x: real): real {
    if x < 0.0 then -x else x
  }

  function Max(x: real, y: real): real {
    if x < y then y else x
  }

  lemma QuotientIs(x: real, y: real, z: real)
    requires y != 0.0 && z * y == x
    ensures x / y == z
  {
  }

  lemma ProductNonNegative(x: real, y: real)
    requires x >= 0.0 && y >= 0.0
    ensures x * y >= 0.0
  {
  }

  lemma QuotientFacts(x: real, y: real)
    requires y > 0.0
    ensures (x / y) * y == x
    ensures x >= 0.0 ==> x / y >= 0.0
    ensures x > 0.0 ==> x / y > 0.0
  {
  }

  lemma PositiveProduct(d: real, c: real)
    requires c > 0.0
    ensures d > 0.0 ==> d * c > 0.0
    ensures d >= 0.0 ==> d * c >= 0.0
  {
  }

  lemma ProductOrder(a: real, b: real, c: real)
    requires c > 0.0
    ensures a < b <==> a * c < b * c
    ensures a <= b <==> a * c <= b * c
  {
    assert b * c - a * c == (b - a) * c;
    PositiveProduct(b - a, c);
    PositiveProduct(a - b, c);
    assert (a - b) * c == -((b - a) * c);
  }

  lemma NegativeQuotient(a: real, e: real)
    requires a >= 0.0 && e != 0.0
    ensures e < 0.0 ==> a / e <= 0.0
    ensures a == 0.0 ==> a / e == 0.0
  {
  }

  lemma BelowFactor(x: real, inverse: real, y: real)
    requires y > 0.0 && inverse * y == 1.0
    ensures x < inverse <==> x * y < 1.0
  {
    var gap := inverse - x;
    assert gap * y == 1.0 - x * y;
    PositiveProduct(gap, y);
    PositiveProduct(-gap, y);
    assert (-gap) * y == -(gap * y);
  }

  /** Being less than the inverse is symmetric. */
  lemma BelowInverse(x: real, y: real)
    requires x > 0.0 && y > 0.0
    ensures x < 1.0 / y <==> x * y < 1.0
  {
    QuotientFacts(1.0, y);
    BelowFactor(x, 1.0 / y, y);
  }

  lemma SmallerQuotient(a: real, b: real, e: real, d: real)
    requires 0.0 <= a <= b && 0.0 < d <= e
    ensures a / e <= b / d
  {
    var x, y := a / e, b / d;
    QuotientFacts(a, e);
    QuotientFacts(b, d);
    ProductOrder(d, e, 1.0);
    assert x * d <= x * e by {
      assert x * (e - d) >= 0.0;
      assert x * e - x * d == x * (e - d);
    }
    ProductOrder(x, y, d);
  }
}

/** The critical value of a test, found by bisection on a p-value that falls as the statistic grows. */
module CriticalValue {
  import opened RealFacts

  const UPPER := 1000.0
  const ROUNDS := 100

  /** The width of the search interval after `k` rounds. */
  function Width(k: nat): (w: real)
    ensures w > 0.0
  {
    if k == 0 then UPPER else Width(k - 1) / 2.0
  }

  /** The p-value never grows with the statistic. */
  ghost predicate Falling(p: real -> real) {
    forall s, t :: 0.0 <= s <= t ==> p(t) <= p(s)
  }

  /** Below `lo` the p-value exceeds the target, from `hi` on it does not. */
  ghost predicate Separates(p: real -> real, target: real, lo: real, hi: real) {
    && (forall t :: 0.0 <= t < lo ==> p(t) > target)
    && (forall t :: t >= hi ==> p(t) <= target)
  }

  /** `p` is the two-tailed p-value as a function of the statistic. */
  method TCriticalValue(p: real -> real, alphaOneTail: real) returns (r: real)
    requires Falling(p)
    ensures var target := 2.0 * alphaOneTail;
      if p(UPPER) >= target then
        r == UPPER
      else
        && 0.0 < r < UPPER
        && Separates(p, target, r - Width(ROUNDS + 1), r + Width(ROUNDS + 1))
  {
    var target := 2.0 * alphaOneTail;
    var lo, hi := 0.0, UPPER;
    if p(hi) >= target {
      return hi;
    }
    for k := 0 to ROUNDS
      invariant 0.0 <= lo < hi <= UPPER && hi - lo == Width(k)
      invariant lo == 0.0 || p(lo) > target
      invariant p(hi) <= target
    {
      var mid := (lo + hi) / 2.0;
      if p(mid) > target {
        lo := mid;
      } else {
        hi := mid;
      }
    }
    r := (lo + hi) / 2.0;
  }

  /** Where the p-value crosses the target. */
  ghost predicate IsCrossing(p: real -> real, target: real, c: real) {
    && 0.0 <= c
    && (forall t :: 0.0 <= t < c ==> p(t) > target)
    && (forall t :: t > c ==> p(t) <= target)
  }

  lemma CrossingIsBetween(p: real -> real, target: real, lo: real, hi: real, c: real)
    requires IsCrossing(p, target, c) && Separates(p, target, lo, hi) && hi >= 0.0
    ensures lo <= c <= hi
  {
    var below, above := (c + lo) / 2.0, (c + hi) / 2.0;
    assert c < lo ==> p(below) <= target;
    assert c < lo ==> p(below) > target;
    assert c > hi ==> p(above) <= target;
    assert c > hi ==> p(above) > target;
  }

  function Power2(n: nat): (p: nat)
    ensures p > 0
  {
    if n == 0 then 1 else 2 * Power2(n - 1)
  }

  lemma {:induction false} WidthIsFraction(k: nat)
    ensures Width(k) == UPPER / Power2(k) as real
  {
    if k > 0 {
      WidthIsFraction(k - 1);
      HalfQuotient(UPPER, Power2(k - 1));
    }
  }

  lemma HalfQuotient(x: real, n: nat)
    requires n > 0
    ensures x / n as real / 2.0 == x / (2 * n) as real
  {
    var y := x / n as real;
    assert y * n as real == x;
    assert (y / 2.0) * (2 * n) as real == y * n as real;
    QuotientIs(x, (2 * n) as real, y / 2.0);
  }

  /** What the bisection promises about its result pins every crossing down to within 1000 / 2^101. */
  lemma CrossingIsNear(p: real -> real, target: real, r: real, c: real)
    requires IsCrossing(p, target, c) && r >= 0.0
    requires Separates(p, target, r - Width(ROUNDS + 1), r + Width(ROUNDS + 1))
    ensures r - UPPER / Power2(ROUNDS + 1) as real <= c <= r + UPPER / Power2(ROUNDS + 1) as real
  {
    hide Width, Power2, IsCrossing, Separates;
    CrossingIsBetween(p, target, r - Width(ROUNDS + 1), r + Width(ROUNDS + 1), c);
    WidthIsFraction(ROUNDS + 1);
  }
}

/** How far a row estimate is off, and how feedback corrects it. */
module QError {
  import opened RealFacts
  import opened RuntimeStats

  function AtLeastOne(x: real): (r: real)
    ensures r >= 1.0
  {
    Max(x, 1.0)
  }

  /** The larger of the two ratios of positive numbers. */
  function Apart(x: real, y: real): real
    requires x > 0.0 && y > 0.0
  {
    Max(x / y, y / x)
  }

  function ComputeQError(estimated: real, actual: real): real {
    Apart(AtLeastOne(estimated), AtLeastOne(actual))
  }

  // ---------- Q-error is a multiplicative metric ----------

  lemma RatioAgainstOne(x: real, y: real)
    requires x > 0.0 && y > 0.0
    ensures x >= y ==> x / y >= 1.0 && y / x <= 1.0
    ensures x > y ==> x / y > 1.0
  {
    var q, r := x / y, y / x;
    assert q * y == x && r * x == y;
    assert q < 1.0 ==> (1.0 - q) * y > 0.0;
    assert r > 1.0 ==> (r - 1.0) * x > 0.0;
    assert q == 1.0 ==> x == y;
  }

  lemma QErrorIsSymmetric(x: real, y: real)
    ensures ComputeQError(x, y) == ComputeQError(y, x)
  {
  }

  lemma ScaledRatio(x: real, y: real, q: real)
    requires y > 0.0
    ensures x / y <= q <==> x <= q * y
  {
    var r := x / y;
    assert r * y == x;
    ProductOrder(r, q, y);
  }

  /** It is the least factor that takes the larger of the two counts down to the smaller one, where counts below one row
      count as one row. */
  lemma QErrorIsLeast(estimated: real, actual: real, q: real)
    ensures var e := if estimated < 1.0 then 1.0 else estimated;
      var a := if actual < 1.0 then 1.0 else actual;
      ComputeQError(estimated, actual) <= q <==> e <= q * a && a <= q * e
  {
    var e, a := AtLeastOne(estimated), AtLeastOne(actual);
    ScaledRatio(e, a, q);
    ScaledRatio(a, e, q);
  }

  /** It is never below 1, and 1 only for estimates that agree up to the clamping at one row. */
  lemma QErrorAtLeastOne(x: real, y: real)
    ensures ComputeQError(x, y) >= 1.0
    ensures ComputeQError(x, y) == 1.0 <==> AtLeastOne(x) == AtLeastOne(y)
  {
    RatioAgainstOne(AtLeastOne(x), AtLeastOne(y));
    RatioAgainstOne(AtLeastOne(y), AtLeastOne(x));
  }

  lemma RatioChain(x: real, y: real, z: real)
    requires x > 0.0 && y > 0.0 && z > 0.0
    ensures x / z == (x / y) * (y / z) && x / y > 0.0 && y / z > 0.0
  {
    var p, q := x / y, y / z;
    assert p * y == x && q * z == y;
    assert (p * q) * z == p * (q * z);
    QuotientIs(x, z, p * q);
    assert p <= 0.0 ==> p * y <= 0.0;
    assert q <= 0.0 ==> q * z <= 0.0;
  }

  lemma ProductMonotone(p: real, q: real, r: real, s: real)
    requires 0.0 < p <= r && 0.0 < q <= s
    ensures p * q <= r * s
  {
    ProductNonNegative(r - p, q);
    ProductNonNegative(r, s - q);
    assert r * s - p * q == (r - p) * q + r * (s - q);
  }

  lemma ProductInOrder(p: real, q: real, r: real, s: real)
    requires 0.0 < p <= r && 0.0 < q <= s
    ensures q * p <= r * s
  {
    ProductMonotone(p, q, r, s);
    assert q * p == p * q;
  }

  lemma ApartAtLeast(x: real, y: real)
    requires x > 0.0 && y > 0.0
    ensures Apart(x, y) >= x / y && Apart(x, y) >= y / x
  {
  }

  lemma RatioTriangle(a: real, b: real, c: real)
    requires a > 0.0 && b > 0.0 && c > 0.0
    ensures a / c <= Apart(a, b) * Apart(b, c) && c / a <= Apart(a, b) * Apart(b, c)
  {
    hide Apart;
    ApartAtLeast(a, b);
    ApartAtLeast(b, c);
    RatioChain(a, b, c);
    ProductMonotone(a / b, b / c, Apart(a, b), Apart(b, c));
    RatioChain(c, b, a);
    ProductInOrder(b / a, c / b, Apart(a, b), Apart(b, c));
  }

  /** The error against `z` is at most the product of the errors by way of `y`. */
  lemma QErrorTriangle(x: real, y: real, z: real)
    ensures ComputeQError(x, z) <= ComputeQError(x, y) * ComputeQError(y, z)
  {
    hide AtLeastOne;
    RatioTriangle(AtLeastOne(x), AtLeastOne(y), AtLeastOne(z));
  }

  /** An estimate that moves towards the actual count never gets worse. */
  lemma CloserIsBetter(x: real, between: real, y: real)
    requires x <= between <= y || y <= between <= x
    ensures ComputeQError(between, y) <= ComputeQError(x, y)
  {
    var a, m, c := AtLeastOne(x), AtLeastOne(between), AtLeastOne(y);
    SmallerRatio(a, m, c);
    RatioAgainstOne(a, c);
    RatioAgainstOne(c, a);
    RatioAgainstOne(m, c);
    RatioAgainstOne(c, m);
  }

  lemma SmallerRatio(a: real, m: real, c: real)
    requires a > 0.0 && m > 0.0 && c > 0.0
    ensures m <= a ==> m / c <= a / c
    ensures a <= m ==> c / m <= c / a
  {
    var p, q := m / c, a / c;
    assert p * c == m && q * c == a;
    assert p > q ==> (p - q) * c > 0.0;
    var r, s := c / m, c / a;
    assert r * m == c && s * a == c;
    RatioChain(c, a, m);
    assert r > s && a <= m ==> r * m > s * m && s * m >= s * a;
  }

  // ---------- the summary of a batch ----------

  function Sum(qs: seq<real>): real {
    if qs == [] then 0.0 else qs[0] + Sum(qs[1..])
  }

  function Largest(qs: seq<real>): (m: real)
    requires qs != []
    ensures m in qs && forall i :: 0 <= i < |qs| ==> qs[i] <= m
  {
    if |qs| == 1 then qs[0] else Max(qs[0], Largest(qs[1..]))
  }

  /** Average and maximum, as `ComputeQErrorSummary` returns them. */
  function Summary(qs: seq<real>): (real, real) {
    if qs == [] then (1.0, 1.0) else (Sum(qs) / |qs| as real, Largest(qs))
  }

  lemma {:induction false} SumBounds(qs: seq<real>, lo: real, hi: real)
    requires forall i :: 0 <= i < |qs| ==> lo <= qs[i] <= hi
    ensures |qs| as real * lo <= Sum(qs) <= |qs| as real * hi
  {
    if qs != [] {
      SumBounds(qs[1..], lo, hi);
      assert |qs| as real * lo == lo + (|qs| - 1) as real * lo;
      assert |qs| as real * hi == hi + (|qs| - 1) as real * hi;
    }
  }

  lemma MeanBounds(qs: seq<real>, lo: real, hi: real)
    requires qs != [] && forall i :: 0 <= i < |qs| ==> lo <= qs[i] <= hi
    ensures lo <= Sum(qs) / |qs| as real <= hi
  {
    SumBounds(qs, lo, hi);
    QuotientBounds(Sum(qs), |qs| as real, lo, hi);
  }

  lemma QuotientBounds(x: real, n: real, lo: real, hi: real)
    requires n > 0.0 && n * lo <= x <= n * hi
    ensures lo <= x / n <= hi
  {
    var m := x / n;
    assert m * n == x;
    assert m < lo ==> (lo - m) * n > 0.0;
    assert m > hi ==> (m - hi) * n > 0.0;
  }

  /** The average of a batch is never above its maximum. */
  lemma SummaryIsOrdered(qs: seq<real>)
    ensures Summary(qs).0 <= Summary(qs).1
  {
    if qs != [] {
      var lo := Smallest(qs);
      MeanBounds(qs, lo, Largest(qs));
    }
  }

  function Smallest(qs: seq<real>): (m: real)
    requires qs != []
    ensures forall i :: 0 <= i < |qs| ==> m <= qs[i]
  {
    if |qs| == 1 then qs[0] else if qs[0] < Smallest(qs[1..]) then qs[0] else Smallest(qs[1..])
  }

  /** For Q-errors, which are at least 1, the average lies between 1 and the maximum. */
  lemma AverageAtMostMaximum(qs: seq<real>)
    requires forall i :: 0 <= i < |qs| ==> qs[i] >= 1.0
    ensures 1.0 <= Summary(qs).0 <= Summary(qs).1
  {
    if qs != [] {
      MeanBounds(qs, 1.0, Largest(qs));
    }
  }

  // ---------- the row count correction ----------

  /** 70% of the table's row count and 30% of the count corrected by what an operator saw, truncated. */
  function Corrected(tableRows: U64, estimated: real, actual: real): U64
    requires estimated != 0.0
  {
    var correction := actual / estimated;
    var blended := tableRows as real * 0.7 + (tableRows as real * correction) * 0.3;
    CastU64(AtLeastOne(blended))
  }

  /** Whether an operator's estimate is close enough to the table's row count to be about that table. */
  predicate Matches(tableRows: U64, estimated: real) {
    Abs(tableRows as real - estimated) / AtLeastOne(tableRows as real) < 0.5
  }

  /** A table matches an estimate that is off by less than half of its count, or of one row if it is empty. */
  lemma MatchesExactly(tableRows: U64, estimated: real)
    ensures Matches(tableRows, estimated) <==>
      if tableRows == 0 then -0.5 < estimated < 0.5
      else tableRows as real < 2.0 * estimated < 3.0 * tableRows as real
  {
    if tableRows == 0 {
      BelowHalf(Abs(tableRows as real - estimated), 1.0);
    } else {
      BelowHalf(Abs(tableRows as real - estimated), tableRows as real);
    }
  }

  lemma BelowHalf(d: real, n: real)
    requires n > 0.0
    ensures d / n < 0.5 <==> d + d < n
  {
    var z := d / n;
    assert z * n == d;
    ProductOrder(z, 0.5, n);
  }

  /** The count is scaled by `(7 * estimated + 3 * actual) / (10 * estimated)` and truncated, but stays between one row
      and the largest count. */
  lemma CorrectedExactly(tableRows: U64, estimated: real, actual: real, scaled: real)
    requires estimated != 0.0
    requires scaled * (10.0 * estimated) == tableRows as real * (7.0 * estimated + 3.0 * actual)
    ensures var r := Corrected(tableRows, estimated, actual);
      if scaled < 1.0 then r == 1
      else if scaled >= MAX_U64 as real then r == MAX_U64
      else r as real <= scaled < r as real + 1.0
  {
    Blended(tableRows as real, estimated, actual, scaled);
  }

  lemma Blended(t: real, e: real, a: real, scaled: real)
    requires e != 0.0 && scaled * (10.0 * e) == t * (7.0 * e + 3.0 * a)
    ensures t * 0.7 + (t * (a / e)) * 0.3 == scaled
  {
    var c := a / e;
    assert c * e == a;
    var blended := t * 0.7 + (t * c) * 0.3;
    assert t * (7.0 * e + 3.0 * (c * e)) == (t * 7.0 + 3.0 * (t * c)) * e;
    assert blended * (10.0 * e) == (t * 7.0 + 3.0 * (t * c)) * e;
    SameFactor(blended, scaled, 10.0 * e);
  }

  lemma SameFactor(x: real, y: real, f: real)
    requires f != 0.0 && x * f == y * f
    ensures x == y
  {
    QuotientIs(x * f, f, x);
    QuotientIs(y * f, f, y);
  }

  /** The correction when the table's count was itself the estimate: seven parts old, three parts seen. */
  lemma CorrectedEstimate(e: U64, a: U64)
    requires e >= 1 && a >= 1
    ensures Matches(e, e as real) && Corrected(e, e as real, a as real) == (7 * e + 3 * a) / 10
  {
    var c := a as real / e as real;
    assert e as real * c == a as real;
    var blended := e as real * 0.7 + a as real * 0.3;
    assert blended >= 1.0;
    FloorOfTenths(7 * e + 3 * a);
    assert blended == (7 * e + 3 * a) as real / 10.0;
  }

  lemma FloorOfTenths(n: nat)
    ensures (n as real / 10.0).Floor == n / 10
  {
    var q := n / 10;
    assert q as real <= n as real / 10.0 < q as real + 1.0;
  }

  /** Feeding the corrected count back as the next estimate, `n` times. */
  function Iterate(e: U64, a: U64, n: nat): (r: U64)
    requires e >= 1 && a >= 1
    ensures r >= 1
    decreases n
  {
    if n == 0 then e
    else
      CorrectedEstimate(e, a);
      Iterate(Corrected(e, e as real, a as real), a, n - 1)
  }

  lemma CorrectionIsBetween(e: U64, a: U64)
    requires e >= 1 && a >= 1
    ensures var next := Corrected(e, e as real, a as real);
      (e <= next <= a) || (a <= next <= e)
  {
    hide Corrected;
    CorrectedEstimate(e, a);
  }

  lemma CorrectionNeverRaisesQError(e: U64, a: U64)
    requires e >= 1 && a >= 1
    ensures var next := Corrected(e, e as real, a as real);
      ComputeQError(next as real, a as real) <= ComputeQError(e as real, a as real)
  {
    hide Corrected, ComputeQError;
    CorrectionIsBetween(e, a);
    CloserIsBetter(e as real, Corrected(e, e as real, a as real) as real, a as real);
  }

  /** Truncation stops the correction up to three rows early, but only from below. */
  lemma FixedPointsExactly(e: U64, a: U64)
    requires e >= 1 && a >= 1
    ensures Corrected(e, e as real, a as real) == e <==> a - 3 <= e <= a
  {
    CorrectedEstimate(e, a);
  }

  /** Where repeated correction ends: at the actual count from above, three rows short of it from below. */
  function Limit(e: U64, a: U64): U64 {
    if e >= a then a else if e >= a - 3 then e else a - 3
  }

  lemma {:induction false} IterationsReachLimit(e: U64, a: U64, n: nat)
    requires e >= 1 && a >= 1 && (n >= e - Limit(e, a) && n >= Limit(e, a) - e)
    ensures Iterate(e, a, n) == Limit(e, a)
    decreases n
  {
    hide Corrected;
    CorrectedEstimate(e, a);
    if n > 0 {
      var next := (7 * e + 3 * a) / 10;
      IterationsReachLimit(next, a, n - 1);
    }
  }
}

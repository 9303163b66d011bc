/** Absmean quantisation: every weight becomes -1, 0 or 1 times the mean magnitude. */
module Quantize {
  import opened RealFacts
  import opened PackedTernary

  /** Below this mean magnitude the scale falls back to 1. */
  const SMALLEST_SCALE: real := 0.0000000001

  function SumAbs(ws: seq<real>): (s: real)
    ensures s >= 0.0
  {
    if ws == [] then 0.0 else Abs(ws[0]) + SumAbs(ws[1..])
  }

  function MeanAbs(ws: seq<real>): real
    requires ws != []
  {
    SumAbs(ws) / |ws| as real
  }

  function Scale(ws: seq<real>): (alpha: real)
    ensures alpha > 0.0
  {
    if ws == [] || MeanAbs(ws) < SMALLEST_SCALE then 1.0 else MeanAbs(ws)
  }

  /** Rounds to the nearest integer, halves away from zero. */
  function Round(x: real): int {
    if x >= 0.0 then (x + 0.5).Floor else -(0.5 - x).Floor
  }

  function RoundClip(x: real): int {
    var rounded := Round(x);
    if rounded >= 1 then 1 else if rounded <= -1 then -1 else 0
  }

  function CodesAt(ws: seq<real>, alpha: real): (q: seq<int>)
    requires alpha != 0.0
    ensures |q| == |ws|
    ensures forall i :: 0 <= i < |ws| ==> q[i] == RoundClip(ws[i] / alpha)
  {
    if ws == [] then [] else [RoundClip(ws[0] / alpha)] + CodesAt(ws[1..], alpha)
  }

  function Codes(ws: seq<real>): seq<int> {
    CodesAt(ws, Scale(ws))
  }

  method AbsmeanTernaryPack(weights: seq<real>, count: nat) returns (packed: Packed, alpha: real)
    requires |weights| == count
    ensures fresh(packed) && fresh(packed.data) && packed.Valid() && packed.len == count
    ensures alpha == Scale(weights)
    ensures forall i :: 0 <= i < count ==> packed.Get(i) == Codes(weights)[i]
  {
    alpha := if count > 0 then SumAbs(weights) / count as real else 1.0;
    alpha := if alpha < SMALLEST_SCALE then 1.0 else alpha;
    packed := new Packed.Pack(CodesAt(weights, alpha));
  }

  // ---------- the scale ----------

  lemma {:induction false} SumAbsJoins(x: seq<real>, y: seq<real>)
    ensures SumAbs(x + y) == SumAbs(x) + SumAbs(y)
  {
    if x == [] {
      assert x + y == y;
    } else {
      SumAbsJoins(x[1..], y);
      assert (x + y)[1..] == x[1..] + y;
    }
  }

  /** The scale is the mean magnitude: that of a single weight, and of two lists together weighted by their lengths. A
      mean magnitude below 1e-10 is replaced by 1. */
  lemma ScaleExactly(x: seq<real>, y: seq<real>, w: real)
    ensures x != [] && y != [] ==>
      |x + y| as real * MeanAbs(x + y) == |x| as real * MeanAbs(x) + |y| as real * MeanAbs(y)
    ensures MeanAbs([w]) == Abs(w)
    ensures Scale(x) == if x != [] && MeanAbs(x) >= 0.0000000001 then MeanAbs(x) else 1.0
  {
    hide MeanAbs, SumAbs;
    if x != [] && y != [] {
      SumAbsJoins(x, y);
      TimesMean(x);
      TimesMean(y);
      TimesMean(x + y);
    }
    MeanOfOne(w);
  }

  lemma TimesMean(ws: seq<real>)
    requires ws != []
    ensures |ws| as real * MeanAbs(ws) == SumAbs(ws)
  {
    hide SumAbs;
  }

  lemma MeanOfOne(w: real)
    ensures MeanAbs([w]) == Abs(w)
  {
    assert [w][1..] == [];
    assert SumAbs([w]) == Abs(w);
    QuotientIs(SumAbs([w]), |[w]| as real, Abs(w));
  }

  // ---------- what a code says about its weight ----------

  lemma RoundClipThresholds(x: real)
    ensures RoundClip(x) == 1 <==> x >= 0.5
    ensures RoundClip(x) == -1 <==> x <= -0.5
    ensures RoundClip(x) == 0 <==> -0.5 < x < 0.5
  {
  }

  lemma ScaledThreshold(w: real, alpha: real, t: real)
    requires alpha > 0.0
    ensures w / alpha >= t <==> w >= t * alpha
    ensures w / alpha <= t <==> w <= t * alpha
  {
    var x := w / alpha;
    assert w == x * alpha;
    if x >= t {
      assert (x - t) * alpha >= 0.0;
    } else {
      assert (t - x) * alpha > 0.0;
    }
    if x <= t {
      assert (t - x) * alpha >= 0.0;
    } else {
      assert (x - t) * alpha > 0.0;
    }
  }

  /** A weight gets a non-zero code exactly when it is at least half the scale in magnitude. */
  lemma CodeOfWeight(w: real, alpha: real)
    requires alpha > 0.0
    ensures RoundClip(w / alpha) == if w >= 0.5 * alpha then 1 else if w <= -0.5 * alpha then -1 else 0
  {
    RoundClipThresholds(w / alpha);
    ScaledThreshold(w, alpha, 0.5);
    ScaledThreshold(w, alpha, -0.5);
  }

  // ---------- some code is non-zero ----------

  /** A list whose members are all smaller than `a` in magnitude has a smaller mean magnitude too. */
  lemma {:induction false} SumBelow(ws: seq<real>, a: real)
    requires ws != []
    requires forall i :: 0 <= i < |ws| ==> Abs(ws[i]) < a
    ensures SumAbs(ws) < |ws| as real * a
  {
    if |ws| == 1 {
      assert ws[1..] == [];
    } else {
      SumBelow(ws[1..], a);
      assert |ws| as real * a == a + (|ws| - 1) as real * a;
    }
  }

  lemma SomeWeightReachesMean(ws: seq<real>) returns (i: nat)
    requires ws != []
    ensures i < |ws| && Abs(ws[i]) >= MeanAbs(ws)
  {
    var a := MeanAbs(ws);
    if forall k :: 0 <= k < |ws| ==> Abs(ws[k]) < a {
      SumBelow(ws, a);
      assert false;
    }
    i :| 0 <= i < |ws| && !(Abs(ws[i]) < a);
  }

  lemma SomeCodeIsNonZero(ws: seq<real>)
    requires ws != [] && MeanAbs(ws) >= SMALLEST_SCALE
    ensures exists i :: 0 <= i < |ws| && Codes(ws)[i] != 0
  {
    var i := SomeWeightReachesMean(ws);
    CodeOfWeight(ws[i], Scale(ws));
    assert Codes(ws)[i] != 0;
  }

  // ---------- the squared error ----------

  function Square(x: real): real {
    x * x
  }

  /** The squared error of standing for weight `w` by code `c`. */
  function CodeError(w: real, alpha: real, c: int): real {
    Square(w - alpha * c as real)
  }

  function SquaredError(ws: seq<real>, alpha: real, q: seq<int>): real
    requires |q| == |ws|
  {
    if ws == [] then 0.0 else CodeError(ws[0], alpha, q[0]) + SquaredError(ws[1..], alpha, q[1..])
  }

  predicate IsTernary(q: seq<int>) {
    forall i :: 0 <= i < |q| ==> -1 <= q[i] <= 1
  }

  function Zeros(n: nat): (z: seq<int>)
    ensures |z| == n && forall i :: 0 <= i < n ==> z[i] == 0
  {
    seq(n, _ => 0)
  }

  /** Of the three multiples, the chosen one is nearest; strictly nearer than 0 above half the scale. */
  lemma CodeIsNearest(w: real, alpha: real, c: int)
    requires alpha > 0.0 && -1 <= c <= 1
    ensures CodeError(w, alpha, RoundClip(w / alpha)) <= CodeError(w, alpha, c)
    ensures Abs(w) > 0.5 * alpha ==> CodeError(w, alpha, RoundClip(w / alpha)) < CodeError(w, alpha, 0)
  {
    CodeOfWeight(w, alpha);
    assert Square(w - alpha) == Square(w) - alpha * (2.0 * w - alpha);
    assert Square(w + alpha) == Square(w) + alpha * (2.0 * w + alpha);
    Signs(w, alpha);
  }

  lemma Signs(w: real, alpha: real)
    requires alpha > 0.0
    ensures w >= 0.5 * alpha ==> alpha * (2.0 * w - alpha) >= 0.0
    ensures w <= 0.5 * alpha ==> alpha * (2.0 * w - alpha) <= 0.0
    ensures w > 0.5 * alpha ==> alpha * (2.0 * w - alpha) > 0.0
    ensures w >= -0.5 * alpha ==> alpha * (2.0 * w + alpha) >= 0.0
    ensures w <= -0.5 * alpha ==> alpha * (2.0 * w + alpha) <= 0.0
    ensures w < -0.5 * alpha ==> alpha * (2.0 * w + alpha) < 0.0
  {
  }

  /** No other choice of ternary codes for the same scale has a smaller squared error. */
  lemma {:induction false} CodesAreOptimal(ws: seq<real>, alpha: real, other: seq<int>)
    requires alpha > 0.0 && |other| == |ws| && IsTernary(other)
    ensures SquaredError(ws, alpha, CodesAt(ws, alpha)) <= SquaredError(ws, alpha, other)
  {
    hide RoundClip, CodeError;
    if ws != [] {
      CodeIsNearest(ws[0], alpha, other[0]);
      CodesAreOptimal(ws[1..], alpha, other[1..]);
      assert CodesAt(ws, alpha)[1..] == CodesAt(ws[1..], alpha);
    }
  }

  lemma {:induction false} StrictlyBetter(ws: seq<real>, alpha: real, i: nat)
    requires alpha > 0.0 && i < |ws| && Abs(ws[i]) > 0.5 * alpha
    ensures SquaredError(ws, alpha, CodesAt(ws, alpha)) < SquaredError(ws, alpha, Zeros(|ws|))
  {
    hide RoundClip, CodeError;
    assert Zeros(|ws|)[1..] == Zeros(|ws[1..]|);
    assert CodesAt(ws, alpha)[1..] == CodesAt(ws[1..], alpha);
    CodeIsNearest(ws[0], alpha, 0);
    if i == 0 {
      CodesAreOptimal(ws[1..], alpha, Zeros(|ws[1..]|));
    } else {
      StrictlyBetter(ws[1..], alpha, i - 1);
    }
  }

  lemma QuantisingReducesError(ws: seq<real>)
    requires ws != [] && MeanAbs(ws) >= SMALLEST_SCALE
    ensures SquaredError(ws, Scale(ws), Codes(ws)) < SquaredError(ws, Scale(ws), Zeros(|ws|))
  {
    var i := SomeWeightReachesMean(ws);
    StrictlyBetter(ws, Scale(ws), i);
  }

  // ---------- quantising the approximation again ----------

  function NonZero(q: seq<int>): (k: nat)
    ensures k <= |q|
    ensures k == 0 <==> forall i :: 0 <= i < |q| ==> q[i] == 0
  {
    if q == [] then 0 else (if q[0] == 0 then 0 else 1) + NonZero(q[1..])
  }

  function Multiple(alpha: real, c: int): real {
    alpha * c as real
  }

  /** The weights that the codes and their scale stand for. */
  function Approximation(alpha: real, q: seq<int>): (ws: seq<real>)
    ensures |ws| == |q|
    ensures forall i :: 0 <= i < |q| ==> ws[i] == Multiple(alpha, q[i])
  {
    if q == [] then [] else [Multiple(alpha, q[0])] + Approximation(alpha, q[1..])
  }

  lemma AbsOfMultiple(alpha: real, c: int)
    requires alpha > 0.0 && -1 <= c <= 1
    ensures Abs(Multiple(alpha, c)) == if c == 0 then 0.0 else alpha
  {
    assert c == 0 || c == 1 || c == -1;
  }

  lemma OneMore(alpha: real, k: nat)
    ensures Multiple(alpha, k + 1) == alpha + Multiple(alpha, k)
    ensures Multiple(alpha, 0) == 0.0
  {
  }

  lemma {:induction false} SumOfApproximation(alpha: real, q: seq<int>)
    requires alpha > 0.0 && IsTernary(q)
    ensures SumAbs(Approximation(alpha, q)) == Multiple(alpha, NonZero(q))
  {
    hide Multiple, Abs;
    OneMore(alpha, 0);
    if q != [] {
      var ws := Approximation(alpha, q);
      assert ws[1..] == Approximation(alpha, q[1..]);
      SumOfApproximation(alpha, q[1..]);
      AbsOfMultiple(alpha, q[0]);
      OneMore(alpha, NonZero(q[1..]));
    }
  }

  lemma TernaryCodes(ws: seq<real>, alpha: real)
    requires alpha > 0.0
    ensures IsTernary(CodesAt(ws, alpha))
  {
  }

  /** Quantising a single multiple again, under a scale that has not grown. */
  lemma SmallerScaleKeepsCode(alpha: real, beta: real, c: int)
    requires 0.0 < beta <= 2.0 * alpha && -1 <= c <= 1
    ensures RoundClip(Multiple(alpha, c) / beta) == c
  {
    CodeOfWeight(alpha * c as real, beta);
  }

  lemma LargerScaleDropsCode(alpha: real, beta: real, c: int)
    requires 0.0 < 2.0 * alpha < beta && -1 <= c <= 1
    ensures RoundClip(Multiple(alpha, c) / beta) == 0
  {
    CodeOfWeight(alpha * c as real, beta);
  }

  lemma PartOfScale(alpha: real, k: nat, n: nat)
    requires alpha > 0.0 && 0 < k <= n
    ensures 0.0 < Multiple(alpha, k) / n as real <= alpha
  {
    var b := Multiple(alpha, k) / n as real;
    assert b * n as real == alpha * k as real;
    assert alpha * (n - k) as real >= 0.0;
    assert alpha * n as real - alpha * k as real == alpha * (n - k) as real;
    assert alpha * k as real > 0.0;
    assert b > alpha ==> (b - alpha) * n as real > 0.0;
    assert b <= 0.0 ==> b * n as real <= 0.0;
  }

  lemma CodesUnderScale(alpha: real, beta: real, q: seq<int>)
    requires alpha > 0.0 && beta > 0.0 && IsTernary(q)
    ensures CodesAt(Approximation(alpha, q), beta) == q <==> (beta <= 2.0 * alpha || NonZero(q) == 0)
  {
    hide RoundClip, NonZero, Approximation, CodesAt, Multiple;
    var again := CodesAt(Approximation(alpha, q), beta);
    forall i | 0 <= i < |q| ensures again[i] == if beta <= 2.0 * alpha then q[i] else 0 {
      if beta <= 2.0 * alpha {
        SmallerScaleKeepsCode(alpha, beta, q[i]);
      } else {
        LargerScaleDropsCode(alpha, beta, q[i]);
      }
    }
  }

  function MeanOfApproximation(alpha: real, q: seq<int>): real
    requires q != []
  {
    Multiple(alpha, NonZero(q)) / |q| as real
  }

  /** The scale of the approximation, and whether it is the fallback. */
  lemma ScaleOfApproximation(alpha: real, q: seq<int>)
    requires alpha > 0.0 && IsTernary(q) && q != []
    ensures var mean := MeanOfApproximation(alpha, q);
      Scale(Approximation(alpha, q)) == if mean < SMALLEST_SCALE then 1.0 else mean
  {
    SumOfApproximation(alpha, q);
  }

  lemma MeanIsSmaller(alpha: real, q: seq<int>)
    requires alpha > 0.0 && q != [] && NonZero(q) != 0
    ensures 0.0 < MeanOfApproximation(alpha, q) <= alpha
  {
    PartOfScale(alpha, NonZero(q), |q|);
  }

  /**
   * Quantising the approximation gives the same codes back exactly when its own mean magnitude stays
   * above the fallback limit, or the scale is at least 1/2, or there was no non-zero code to lose.
   */
  lemma RequantisingExactly(ws: seq<real>)
    requires ws != []
    ensures var (alpha, q) := (Scale(ws), Codes(ws));
      Codes(Approximation(alpha, q)) == q
      <==>
      (MeanOfApproximation(alpha, q) >= SMALLEST_SCALE || alpha >= 0.5 || NonZero(q) == 0)
  {
    hide Scale, Approximation, NonZero, CodesAt, MeanOfApproximation;
    var alpha, q := Scale(ws), Codes(ws);
    TernaryCodes(ws, alpha);
    ScaleOfApproximation(alpha, q);
    var beta := Scale(Approximation(alpha, q));
    CodesUnderScale(alpha, beta, q);
    if NonZero(q) != 0 {
      MeanIsSmaller(alpha, q);
    }
  }

  /** Two weights whose codes are lost when their approximation is quantised again. */
  lemma RequantisingCanLoseCodes()
    ensures var ws := [2.0 * SMALLEST_SCALE, 0.0];
      MeanAbs(ws) >= SMALLEST_SCALE && Codes(ws) == [1, 0] && Codes(Approximation(Scale(ws), Codes(ws))) == [0, 0]
  {
    var ws := [2.0 * SMALLEST_SCALE, 0.0];
    assert SumAbs(ws[1..]) == 0.0 by {
      assert ws[1..][1..] == [];
    }
    assert SumAbs(ws) == 2.0 * SMALLEST_SCALE;
    assert MeanAbs(ws) == SMALLEST_SCALE;
    CodeOfWeight(ws[0], SMALLEST_SCALE);
    CodeOfWeight(ws[1], SMALLEST_SCALE);
    var q := Codes(ws);
    assert q == [1, 0];
    assert NonZero(q) == 1 by {
      assert NonZero(q[1..]) == 0;
    }
    ScaleOfApproximation(SMALLEST_SCALE, q);
    var again := Approximation(SMALLEST_SCALE, q);
    assert Scale(again) == 1.0;
    CodeOfWeight(again[0], 1.0);
    CodeOfWeight(again[1], 1.0);
    assert Codes(again) == [0, 0];
  }
}

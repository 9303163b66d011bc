/** What whole runs of masked training do to dimensions that are never observed. */
module TrainingRuns {
  import opened RealFacts
  import opened Dimensions
  import opened FloatArithmetic
  import opened TrainingSpec

  // ---------- unobserved dimensions do not move ----------

  /** No weight decay, and no division by zero in the optimizer. */
  ghost predicate Undecayed(u: Setup) {
    && u.cfg.weightDecay == 0.0
    && (forall t: nat :: t > 0 ==> BiasCorrection(u, u.cfg.beta1, t) != 0.0)
    && (forall x :: u.a.Add(u.a.Sqrt(x), u.cfg.eps) != 0.0)
  }

  /** The optimizer has no momentum on the weights of output `j`. */
  ghost predicate Still(s: State, j: nat)
    requires s.Valid() && j < O
  {
    s.b2.m[j] == 0.0 && forall i :: 0 <= i < H ==> s.w2.m[i * O + j] == 0.0
  }

  ghost predicate SameColumn(s: State, r: State, j: nat)
    requires s.Valid() && r.Valid() && j < O
  {
    s.b2.w[j] == r.b2.w[j] && forall i :: 0 <= i < H ==> s.w2.w[i * O + j] == r.w2.w[i * O + j]
  }

  /** A weight with no gradient and no momentum stays where it is. */
  lemma AdamAtRest(u: Setup, t: Tensor, g: seq<real>, bc1: real, bc2: real, k: nat)
    requires ZeroLaws(u.a) && Undecayed(u) && t.Sized(|g|) && bc1 != 0.0 && k < |g|
    requires g[k] == 0.0 && t.m[k] == 0.0
    ensures Adam(u, t, g, bc1, bc2).m[k] == 0.0 && Adam(u, t, g, bc1, bc2).w[k] == t.w[k]
  {
    assert FirstMoment(u, t.m[k], g[k]) == 0.0;
    var v := SecondMoment(u, t.v[k], g[k]);
    assert u.a.Div(0.0, bc1) == 0.0;
    assert u.a.Div(0.0, u.a.Add(u.a.Sqrt(u.a.Div(v, bc2)), u.cfg.eps)) == 0.0;
    assert Moved(u, t.w[k], 0.0, v, bc1, bc2) == t.w[k];
  }

  lemma NoGradientUnobserved(u: Setup, pre: seq<real>, target: seq<real>, mask: seq<bool>, j: nat)
    requires ZeroLaws(u.a) && |pre| == O && |target| == O && |mask| == O && j < O && !mask[j]
    ensures OutputGradient(u, pre, target, mask)[j] == 0.0
  {
  }

  lemma OuterColumn(u: Setup, left: seq<real>, right: seq<real>, i: nat, j: nat)
    requires ZeroLaws(u.a) && |left| == H && |right| == O && i < H && j < O && right[j] == 0.0
    ensures Outer(u, left, right)[i * O + j] == 0.0
  {
    assert (i * O + j) / O == i && (i * O + j) % O == j;
  }

  lemma UpdateAtRest(u: Setup, s: State, g: Gradients, loss: real, j: nat)
    requires ZeroLaws(u.a) && Undecayed(u) && s.Valid() && g.Valid() && j < O
    requires g.b2[j] == 0.0 && forall i :: 0 <= i < H ==> g.w2[i * O + j] == 0.0
    requires Still(s, j)
    ensures Still(Update(u, s, g, loss), j) && SameColumn(s, Update(u, s, g, loss), j)
  {
    hide Adam, GradNorm, ClipFactor;
    var clip := ClipFactor(u, GradNorm(u, g));
    var t := s.step + 1;
    assert Clipped(u, g.b2, clip)[j] == 0.0;
    var bc1, bc2 := BiasCorrection(u, u.cfg.beta1, t), BiasCorrection(u, u.cfg.beta2, t);
    AdamAtRest(u, s.b2, Clipped(u, g.b2, clip), bc1, bc2, j);
    forall i | 0 <= i < H
      ensures Adam(u, s.w2, Decayed(u, g.w2, clip, s.w2.w), bc1, bc2).m[i * O + j] == 0.0
      ensures Adam(u, s.w2, Decayed(u, g.w2, clip, s.w2.w), bc1, bc2).w[i * O + j] == s.w2.w[i * O + j]
    {
      var k := i * O + j;
      assert g.w2[k] == 0.0;
      assert Decayed(u, g.w2, clip, s.w2.w)[k] == 0.0;
      AdamAtRest(u, s.w2, Decayed(u, g.w2, clip, s.w2.w), bc1, bc2, k);
    }
  }

  lemma StepAtRest(u: Setup, s: State, sample: Sample, j: nat)
    requires ZeroLaws(u.a) && Undecayed(u) && u.Valid() && s.Valid() && sample.Valid()
    requires j < O && !sample.mask[j] && Still(s, j)
    ensures Still(Step(u, s, sample), j) && SameColumn(s, Step(u, s, sample), j)
  {
    hide Update, Forward, OutputGradient, HiddenGradient, Outer, Normalize, HiddenPre, Relu;
    if Observed(sample.mask) != 0 {
      var pre := Forward(u, s, sample.features);
      var dOut := OutputGradient(u, pre, sample.target, sample.mask);
      NoGradientUnobserved(u, pre, sample.target, sample.mask, j);
      var g := Backward(u, s, sample.features, dOut);
      var h := Relu(HiddenPre(u, s, Normalize(u, sample.features)));
      forall i | 0 <= i < H ensures g.w2[i * O + j] == 0.0 {
        OuterColumn(u, h, dOut, i, j);
      }
      UpdateAtRest(u, s, g, SampleLoss(u, s, sample), j);
    }
  }

  /** Without weight decay, the output weights of a dimension that no sample observes never change. */
  lemma {:induction false} NeverObservedNeverMoves(u: Setup, s: State, samples: seq<Sample>, j: nat)
    requires ZeroLaws(u.a) && Undecayed(u) && u.Valid() && s.Valid() && j < O && Still(s, j)
    requires AllValid(samples) && forall k :: 0 <= k < |samples| ==> !samples[k].mask[j]
    ensures Still(Run(u, s, samples), j) && SameColumn(s, Run(u, s, samples), j)
    decreases |samples|
  {
    hide Step;
    if samples != [] {
      var before := samples[..|samples| - 1];
      NeverObservedNeverMoves(u, s, before, j);
      StepAtRest(u, Run(u, s, before), samples[|samples| - 1], j);
    }
  }

  /** What `Undecayed` asks of the optimizer holds in exact arithmetic for every sensible configuration. */
  lemma ExactIsUndecayed(u: Setup)
    requires u.a == Exact(u.a.sqrt, u.a.softplus, u.a.sigmoid)
    requires forall x :: u.a.sqrt(x) >= 0.0
    requires 0.0 <= u.cfg.beta1 < 1.0 && u.cfg.eps > 0.0 && u.cfg.weightDecay == 0.0
    ensures ZeroLaws(u.a) && Undecayed(u)
  {
    ExactObeysZeroLaws(u.a.sqrt, u.a.softplus, u.a.sigmoid);
    forall t: nat | t > 0 ensures BiasCorrection(u, u.cfg.beta1, t) != 0.0 {
      PowerBelowOne(u.cfg.beta1, t);
    }
    forall x ensures u.a.Add(u.a.Sqrt(x), u.cfg.eps) != 0.0 {
      assert u.a.sqrt(x) >= 0.0;
    }
  }

  // ---------- targets of unobserved dimensions are never read ----------

  /** Two samples that differ at most in the targets that their mask hides. */
  ghost predicate SameObserved(x: Sample, y: Sample)
    requires x.Valid() && y.Valid()
  {
    && x.features == y.features && x.mask == y.mask
    && forall j :: 0 <= j < O && x.mask[j] ==> x.target[j] == y.target[j]
  }

  lemma {:induction false} SameLoss(u: Setup, pre: seq<real>, x: Sample, y: Sample, n: nat)
    requires |pre| == O && x.Valid() && y.Valid() && SameObserved(x, y) && n <= O
    ensures LossSum(u, pre, x.target, x.mask, n) == LossSum(u, pre, y.target, y.mask, n)
  {
    if n > 0 {
      SameLoss(u, pre, x, y, n - 1);
    }
  }

  lemma SameStep(u: Setup, s: State, x: Sample, y: Sample)
    requires u.Valid() && s.Valid() && x.Valid() && y.Valid() && SameObserved(x, y)
    ensures Step(u, s, x) == Step(u, s, y) && SampleLoss(u, s, x) == SampleLoss(u, s, y)
  {
    hide Update, Forward, Backward, LossSum;
    var pre := Forward(u, s, x.features);
    SameLoss(u, pre, x, y, O);
    assert OutputGradient(u, pre, x.target, x.mask) == OutputGradient(u, pre, y.target, y.mask);
  }

  /** The final state of a run does not depend on what the hidden targets contain, in any arithmetic. */
  lemma {:induction false} HiddenTargetsAreNotRead(u: Setup, s: State, xs: seq<Sample>, ys: seq<Sample>)
    requires u.Valid() && s.Valid() && |xs| == |ys|
    requires AllValid(xs) && AllValid(ys) && forall k :: 0 <= k < |xs| ==> SameObserved(xs[k], ys[k])
    ensures Run(u, s, xs) == Run(u, s, ys)
    decreases |xs|
  {
    hide Step, SameObserved;
    if xs != [] {
      var n := |xs| - 1;
      HiddenTargetsAreNotRead(u, s, xs[..n], ys[..n]);
      SameStep(u, Run(u, s, xs[..n]), xs[n], ys[n]);
    }
  }

  // ---------- with weight decay they do move ----------

  /**
   * In exact arithmetic, one step from zero moments moves the weight from hidden neuron `i` to an
   * unobserved output exactly when weight decay, learning rate and the weight itself are all non-zero.
   */
  lemma DecayMovesUnobserved(u: Setup, s: State, sample: Sample, i: nat, j: nat)
    requires u.a == Exact(u.a.sqrt, u.a.softplus, u.a.sigmoid)
    requires u.cfg.eps > 0.0 && forall x :: u.a.Sqrt(x) >= 0.0
    requires 0.0 <= u.cfg.beta1 < 1.0
    requires u.Valid() && s.Valid() && sample.Valid() && i < H && j < O
    requires Observed(sample.mask) > 0 && !sample.mask[j] && s.w2.m[i * O + j] == 0.0
    ensures Step(u, s, sample).w2.w[i * O + j] == s.w2.w[i * O + j]
       <==> u.cfg.lr == 0.0 || u.cfg.weightDecay == 0.0 || s.w2.w[i * O + j] == 0.0
  {
    hide Update, Forward, OutputGradient, HiddenGradient, Outer, Normalize, HiddenPre, Relu, Exact, ZeroLaws;
    ExactObeysZeroLaws(u.a.sqrt, u.a.softplus, u.a.sigmoid);
    var k := i * O + j;
    var pre := Forward(u, s, sample.features);
    var dOut := OutputGradient(u, pre, sample.target, sample.mask);
    NoGradientUnobserved(u, pre, sample.target, sample.mask, j);
    var g := Backward(u, s, sample.features, dOut);
    OuterColumn(u, Relu(HiddenPre(u, s, Normalize(u, sample.features))), dOut, i, j);
    DecayedUpdate(u, s, g, SampleLoss(u, s, sample), k);
  }

  lemma DecayedUpdate(u: Setup, s: State, g: Gradients, loss: real, k: nat)
    requires u.a == Exact(u.a.sqrt, u.a.softplus, u.a.sigmoid)
    requires u.cfg.eps > 0.0 && forall x :: u.a.Sqrt(x) >= 0.0
    requires 0.0 <= u.cfg.beta1 < 1.0
    requires s.Valid() && g.Valid() && k < H * O && g.w2[k] == 0.0 && s.w2.m[k] == 0.0
    ensures Update(u, s, g, loss).w2.w[k] == s.w2.w[k]
       <==> u.cfg.lr == 0.0 || u.cfg.weightDecay == 0.0 || s.w2.w[k] == 0.0
  {
    hide GradNorm, ClipFactor, BiasCorrection, Moved, Update, Decayed, FirstMoment, SecondMoment;
    var clip := ClipFactor(u, GradNorm(u, g));
    var d := Decayed(u, g.w2, clip, s.w2.w)[k];
    var m := FirstMoment(u, s.w2.m[k], d);
    var bc1, bc2 := BiasCorrection(u, u.cfg.beta1, s.step + 1), BiasCorrection(u, u.cfg.beta2, s.step + 1);
    UpdatedWeight(u, s, g, loss, k);
    DecayOnly(u, g.w2, clip, s.w2.w, k);
    FirstMomentFromZero(u, d);
    PositiveCorrection(u, s.step + 1);
    ExactMove(u, s.w2.w[k], m, SecondMoment(u, s.w2.v[k], d), bc1, bc2);
  }

  lemma UpdatedWeight(u: Setup, s: State, g: Gradients, loss: real, k: nat)
    requires s.Valid() && g.Valid() && k < H * O
    ensures var clip := ClipFactor(u, GradNorm(u, g));
      var d := Decayed(u, g.w2, clip, s.w2.w)[k];
      var bc1, bc2 := BiasCorrection(u, u.cfg.beta1, s.step + 1), BiasCorrection(u, u.cfg.beta2, s.step + 1);
      Update(u, s, g, loss).w2.w[k]
      == Moved(u, s.w2.w[k], FirstMoment(u, s.w2.m[k], d), SecondMoment(u, s.w2.v[k], d), bc1, bc2)
  {
    hide GradNorm, ClipFactor, BiasCorrection, Moved, FirstMoment, SecondMoment, Decayed, Clipped;
  }

  lemma DecayOnly(u: Setup, g: seq<real>, clip: real, w: seq<real>, k: nat)
    requires u.a == Exact(u.a.sqrt, u.a.softplus, u.a.sigmoid) && |g| == |w| && k < |w| && g[k] == 0.0
    ensures Decayed(u, g, clip, w)[k] == u.cfg.weightDecay * w[k]
  {
  }

  lemma FirstMomentFromZero(u: Setup, d: real)
    requires u.a == Exact(u.a.sqrt, u.a.softplus, u.a.sigmoid) && u.cfg.beta1 < 1.0
    ensures FirstMoment(u, 0.0, d) == 0.0 <==> d == 0.0
  {
    assert FirstMoment(u, 0.0, d) == (1.0 - u.cfg.beta1) * d;
  }

  lemma PositiveCorrection(u: Setup, t: nat)
    requires u.a == Exact(u.a.sqrt, u.a.softplus, u.a.sigmoid) && 0.0 <= u.cfg.beta1 < 1.0 && t > 0
    ensures BiasCorrection(u, u.cfg.beta1, t) > 0.0
  {
    hide Power;
    PowerBelowOne(u.cfg.beta1, t);
  }

  lemma ExactMove(u: Setup, w: real, m: real, v: real, bc1: real, bc2: real)
    requires u.a == Exact(u.a.sqrt, u.a.softplus, u.a.sigmoid)
    requires u.cfg.eps > 0.0 && (forall x :: u.a.Sqrt(x) >= 0.0) && bc1 > 0.0
    ensures Moved(u, w, m, v, bc1, bc2) == w <==> u.cfg.lr == 0.0 || m == 0.0
  {
    var mHat := m / bc1;
    assert u.a.Div(m, bc1) == mHat;
    assert mHat * bc1 == m;
    var d := u.a.Add(u.a.Sqrt(u.a.Div(v, bc2)), u.cfg.eps);
    assert d > 0.0;
    var p := u.cfg.lr * mHat;
    assert u.a.Mul(u.cfg.lr, mHat) == p;
    assert u.a.Div(p, d) == p / d;
    assert (p / d) * d == p;
    assert Moved(u, w, m, v, bc1, bc2) == w - p / d;
  }

  // ---------- clipping ----------

  function ClipAll(u: Setup, g: Gradients, clip: real): Gradients {
    Gradients(Clipped(u, g.w1, clip), Clipped(u, g.b1, clip), Clipped(u, g.w2, clip), Clipped(u, g.b2, clip))
  }

  ghost predicate IsSquareRoot(sqrt: real -> real) {
    forall x :: x >= 0.0 ==> sqrt(x) >= 0.0 && Times(sqrt(x), sqrt(x)) == x
  }

  lemma ScaledSquare(x: real, y: real, clip: real)
    ensures Times(Times(clip, clip), x + Times(y, y))
         == Times(Times(clip, clip), x) + Times(Times(y, clip), Times(y, clip))
  {
    var c := clip * clip;
    assert (y * clip) * (y * clip) == c * (y * y);
    assert c * (x + y * y) == c * x + c * (y * y);
  }

  lemma SquareSumStep(u: Setup, start: real, g: seq<real>, n: nat)
    requires u.a == Exact(u.a.sqrt, u.a.softplus, u.a.sigmoid) && n < |g|
    ensures SquareSum(u, start, g, n + 1) == SquareSum(u, start, g, n) + Times(g[n], g[n])
  {
  }

  lemma ClippedAt(u: Setup, g: seq<real>, clip: real, n: nat)
    requires u.a == Exact(u.a.sqrt, u.a.softplus, u.a.sigmoid) && n < |g|
    ensures Clipped(u, g, clip)[n] == Times(g[n], clip)
  {
  }

  lemma {:induction false} ClippedSquareSum(u: Setup, start: real, g: seq<real>, clip: real, n: nat)
    requires u.a == Exact(u.a.sqrt, u.a.softplus, u.a.sigmoid) && n <= |g| && start >= 0.0
    ensures SquareSum(u, Times(Times(clip, clip), start), Clipped(u, g, clip), n)
         == Times(Times(clip, clip), SquareSum(u, start, g, n))
    ensures SquareSum(u, start, g, n) >= 0.0
  {
    hide Times, Exact, Clipped;
    if n > 0 {
      ClippedSquareSum(u, start, g, clip, n - 1);
      SquareSumStep(u, start, g, n - 1);
      ClippedAt(u, g, clip, n - 1);
      SquareSumStep(u, Times(Times(clip, clip), start), Clipped(u, g, clip), n - 1);
      ScaledSquare(SquareSum(u, start, g, n - 1), g[n - 1], clip);
      SquareNonNegative(g[n - 1]);
    }
  }

  lemma SquareNonNegative(x: real)
    ensures Times(x, x) >= 0.0
  {
  }

  lemma RootOfScaled(sqrt: real -> real, clip: real, x: real)
    requires IsSquareRoot(sqrt) && clip >= 0.0 && x >= 0.0
    ensures sqrt(Times(Times(clip, clip), x)) == clip * sqrt(x)
  {
    var r := sqrt(x);
    var y := Times(Times(clip, clip), x);
    assert Times(r, r) == x;
    ProductNonNegative(clip, clip);
    ProductNonNegative(clip * clip, x);
    ProductNonNegative(clip, r);
    var q, p := sqrt(y), clip * r;
    assert Times(q, q) == y;
    assert p * p == (clip * clip) * (r * r);
    EqualSquares(p, q);
  }

  lemma EqualSquares(p: real, q: real)
    requires p >= 0.0 && q >= 0.0 && p * p == q * q
    ensures p == q
  {
    assert (p - q) * (p + q) == 0.0;
    ProductZero(p - q, p + q);
  }

  lemma ProductZero(x: real, y: real)
    requires x * y == 0.0
    ensures x == 0.0 || y == 0.0
  {
  }

  lemma NormOfClipped(u: Setup, g: Gradients, clip: real)
    requires u.a == Exact(u.a.sqrt, u.a.softplus, u.a.sigmoid) && IsSquareRoot(u.a.sqrt) && clip >= 0.0
    ensures GradNorm(u, ClipAll(u, g, clip)) == clip * GradNorm(u, g) && GradNorm(u, g) >= 0.0
  {
    hide Exact, SquareSum, Times, IsSquareRoot, Clipped;
    TimesZero(Times(clip, clip));
    ClippedSquareSum(u, 0.0, g.w1, clip, |g.w1|);
    var s1 := SquareSum(u, 0.0, g.w1, |g.w1|);
    ClippedSquareSum(u, s1, g.b1, clip, |g.b1|);
    var s2 := SquareSum(u, s1, g.b1, |g.b1|);
    ClippedSquareSum(u, s2, g.w2, clip, |g.w2|);
    var s3 := SquareSum(u, s2, g.w2, |g.w2|);
    ClippedSquareSum(u, s3, g.b2, clip, |g.b2|);
    RootOfScaled(u.a.sqrt, clip, SquareSum(u, s3, g.b2, |g.b2|));
    RootNonNegative(u.a.sqrt, SquareSum(u, s3, g.b2, |g.b2|));
  }

  lemma TimesZero(x: real)
    ensures Times(x, 0.0) == 0.0
  {
  }

  lemma RootNonNegative(sqrt: real -> real, x: real)
    requires IsSquareRoot(sqrt) && x >= 0.0
    ensures sqrt(x) >= 0.0
  {
  }

  /** In exact arithmetic the clipped gradients have their old norm, or the maximal norm where that is less. */
  lemma ClippingCapsNorm(u: Setup, g: Gradients)
    requires u.a == Exact(u.a.sqrt, u.a.softplus, u.a.sigmoid) && IsSquareRoot(u.a.sqrt)
    requires u.cfg.maxGradNorm >= 0.0
    ensures GradNorm(u, ClipAll(u, g, ClipFactor(u, GradNorm(u, g))))
         == if GradNorm(u, g) > u.cfg.maxGradNorm then u.cfg.maxGradNorm else GradNorm(u, g)
  {
    hide GradNorm, ClipAll, IsSquareRoot;
    var norm := GradNorm(u, g);
    var clip := ClipFactor(u, norm);
    if norm > u.cfg.maxGradNorm {
      assert clip == u.cfg.maxGradNorm / norm;
      assert clip * norm == u.cfg.maxGradNorm;
      QuotientNonNegative(u.cfg.maxGradNorm, norm);
    }
    NormOfClipped(u, g, clip);
  }

  lemma QuotientNonNegative(x: real, y: real)
    requires x >= 0.0 && y > 0.0
    ensures x / y >= 0.0
  {
  }
}

/** Which way and how far the optimizer moves the weights, in exact arithmetic. */
module OptimizerSteps {
  import opened RealFacts
  import opened Dimensions
  import opened FloatArithmetic
  import opened TrainingSpec
  import opened TrainingRuns

  ghost predicate ExactWithRoots(u: Setup) {
    u.a == Exact(u.a.sqrt, u.a.softplus, u.a.sigmoid) && IsSquareRoot(u.a.sqrt)
  }

  // ---------- what pulls at a weight ----------

  function SumOfSquares(g: seq<real>): real {
    if g == [] then 0.0 else SumOfSquares(g[..|g| - 1]) + Times(g[|g| - 1], g[|g| - 1])
  }

  function Energy(g: Gradients): real {
    SumOfSquares(g.w1) + SumOfSquares(g.b1) + SumOfSquares(g.w2) + SumOfSquares(g.b2)
  }

  /** The factor that brings the gradients down to the maximal norm, if they are above it. */
  ghost predicate IsClip(u: Setup, g: Gradients, c: real) {
    var most := u.cfg.maxGradNorm;
    && 0.0 <= c <= 1.0
    && if Energy(g) <= Times(most, most) then c == 1.0 else Times(Times(c, c), Energy(g)) == Times(most, most)
  }

  lemma {:induction false} SquareSumIs(u: Setup, start: real, g: seq<real>, n: nat)
    requires u.a == Exact(u.a.sqrt, u.a.softplus, u.a.sigmoid) && n <= |g|
    ensures SquareSum(u, start, g, n) == start + SumOfSquares(g[..n])
  {
    hide Times, Exact;
    if n == 0 {
      assert g[..0] == [];
    } else {
      SquareSumIs(u, start, g, n - 1);
      SquareSumStep(u, start, g, n - 1);
      assert g[..n][..n - 1] == g[..n - 1];
    }
  }

  lemma {:induction false} SumOfSquaresNonNegative(g: seq<real>)
    ensures SumOfSquares(g) >= 0.0
  {
    hide Times;
    if g != [] {
      SumOfSquaresNonNegative(g[..|g| - 1]);
      SquareNonNegative(g[|g| - 1]);
    }
  }

  lemma NormIsRoot(u: Setup, g: Gradients)
    requires u.a == Exact(u.a.sqrt, u.a.softplus, u.a.sigmoid)
    ensures GradNorm(u, g) == u.a.sqrt(Energy(g)) && Energy(g) >= 0.0
  {
    hide SquareSum, SumOfSquares, Exact;
    var s1 := SquareSum(u, 0.0, g.w1, |g.w1|);
    var s2 := SquareSum(u, s1, g.b1, |g.b1|);
    var s3 := SquareSum(u, s2, g.w2, |g.w2|);
    SquareSumIs(u, 0.0, g.w1, |g.w1|);
    SquareSumIs(u, s1, g.b1, |g.b1|);
    SquareSumIs(u, s2, g.w2, |g.w2|);
    SquareSumIs(u, s3, g.b2, |g.b2|);
    assert g.w1[..|g.w1|] == g.w1 && g.b1[..|g.b1|] == g.b1 && g.w2[..|g.w2|] == g.w2 && g.b2[..|g.b2|] == g.b2;
    SumOfSquaresNonNegative(g.w1);
    SumOfSquaresNonNegative(g.b1);
    SumOfSquaresNonNegative(g.w2);
    SumOfSquaresNonNegative(g.b2);
  }

  lemma StrictlyMore(x: real, y: real)
    requires x > y >= 0.0
    ensures Times(x, x) > Times(y, y)
  {
    hide Times;
    TimesOrder(y, x, x);
    if y > 0.0 {
      TimesOrder(y, x, y);
      TimesCommutes(x, y);
    } else {
      ZeroFactor(y, x);
    }
  }

  lemma ZeroFactor(x: real, y: real)
    requires x == 0.0
    ensures Times(x, y) == 0.0 && Times(x, x) == 0.0
  {
  }

  lemma TimesOrder(x: real, y: real, c: real)
    requires c > 0.0 && x < y
    ensures Times(x, c) < Times(y, c)
  {
    ProductOrder(x, y, c);
  }

  lemma TimesCommutes(x: real, y: real)
    ensures Times(x, y) == Times(y, x)
  {
  }

  lemma SquaresInOrder(x: real, y: real)
    requires x >= 0.0 && y >= 0.0
    ensures x <= y <==> Times(x, x) <= Times(y, y)
  {
    hide Times;
    if x > y {
      StrictlyMore(x, y);
    } else if x < y {
      StrictlyMore(y, x);
    }
  }

  lemma SquareOfProduct(c: real, n: real)
    ensures Times(Times(c, c), Times(n, n)) == Times(c * n, c * n)
  {
    assert (c * c) * (n * n) == (c * n) * (c * n);
  }

  lemma QuotientSquared(most: real, norm: real)
    requires 0.0 <= most < norm
    ensures var c := most / norm; 0.0 <= c <= 1.0 && Times(Times(c, c), Times(norm, norm)) == Times(most, most)
  {
    hide Times;
    var c := most / norm;
    QuotientFacts(most, norm);
    ProductOrder(c, 1.0, norm);
    SquareOfProduct(c, norm);
    assert c * norm == most;
  }

  /** The trainer's factor is the one. */
  lemma ClipsExactly(u: Setup, g: Gradients)
    requires ExactWithRoots(u) && u.cfg.maxGradNorm >= 0.0
    ensures IsClip(u, g, ClipFactor(u, GradNorm(u, g)))
  {
    hide Energy, Times, GradNorm;
    var norm, most := GradNorm(u, g), u.cfg.maxGradNorm;
    NormIsRoot(u, g);
    assert norm >= 0.0 && Times(norm, norm) == Energy(g);
    SquaresInOrder(norm, most);
    if norm > most {
      QuotientSquared(most, norm);
    }
  }

  /** The four groups of weights. */
  datatype Group = W1 | B1 | W2 | B2

  function Size(group: Group): nat {
    match group
    case W1 => F * H
    case B1 => H
    case W2 => H * O
    case B2 => O
  }

  function GroupOf(s: State, group: Group): (t: Tensor)
    requires s.Valid()
    ensures t.Sized(Size(group))
  {
    match group
    case W1 => s.w1
    case B1 => s.b1
    case W2 => s.w2
    case B2 => s.b2
  }

  function PartOf(g: Gradients, group: Group): (r: seq<real>)
    requires g.Valid()
    ensures |r| == Size(group)
  {
    match group
    case W1 => g.w1
    case B1 => g.b1
    case W2 => g.w2
    case B2 => g.b2
  }

  /** The gradients of a sample with something observed. */
  function SampleGradients(u: Setup, s: State, sample: Sample): (g: Gradients)
    requires u.Valid() && s.Valid() && sample.Valid()
    ensures g.Valid()
  {
    var pre := Forward(u, s, sample.features);
    Backward(u, s, sample.features, OutputGradient(u, pre, sample.target, sample.mask))
  }

  /** What a weight is moved by: its gradient clipped by `c`, with decay for matrices but not for biases. */
  function Pull(u: Setup, s: State, sample: Sample, c: real, group: Group, k: nat): real
    requires u.Valid() && s.Valid() && sample.Valid() && k < Size(group)
  {
    PartOf(SampleGradients(u, s, sample), group)[k] * c
    + (if group.W1? || group.W2? then u.cfg.weightDecay * GroupOf(s, group).w[k] else 0.0)
  }

  function Clip(u: Setup, s: State, sample: Sample): real
    requires u.Valid() && s.Valid() && sample.Valid()
  {
    ClipFactor(u, GradNorm(u, SampleGradients(u, s, sample)))
  }

  // ---------- one step ----------

  lemma AdamAt(u: Setup, t: Tensor, g: seq<real>, step: nat, k: nat)
    requires ExactWithRoots(u) && t.Sized(|g|) && k < |g| && u.cfg.eps > 0.0
    requires 0.0 <= u.cfg.beta1 < 1.0 && 0.0 <= u.cfg.beta2 < 1.0 && step > 0 && t.v[k] >= 0.0
    ensures var bc1, bc2 := BiasCorrection(u, u.cfg.beta1, step), BiasCorrection(u, u.cfg.beta2, step);
      var r := Adam(u, t, g, bc1, bc2);
      && r.m[k] == u.cfg.beta1 * t.m[k] + (1.0 - u.cfg.beta1) * g[k]
      && r.v[k] == u.cfg.beta2 * t.v[k] + (1.0 - u.cfg.beta2) * (g[k] * g[k]) && r.v[k] >= 0.0
      && r.w[k] == MovedTo(u, t.w[k], r.m[k], r.v[k], step)
  {
    hide Power, IsSquareRoot;
    var bc1, bc2 := BiasCorrection(u, u.cfg.beta1, step), BiasCorrection(u, u.cfg.beta2, step);
    PowerBelowOne(u.cfg.beta1, step);
    PowerBelowOne(u.cfg.beta2, step);
    SecondIs(u.cfg.beta2, t.v[k], g[k]);
    var v := SecondMoment(u, t.v[k], g[k]);
    QuotientNonNegative(v, bc2);
    RootNonNegative(u.a.sqrt, v / bc2);
  }

  lemma SecondIs(beta: real, v: real, g: real)
    requires 0.0 <= beta < 1.0 && v >= 0.0
    ensures (1.0 - beta) * g * g == (1.0 - beta) * (g * g)
    ensures beta * v + (1.0 - beta) * (g * g) >= 0.0
  {
    ProductNonNegative(beta, v);
    SquareNonNegative(g);
    ProductNonNegative(1.0 - beta, g * g);
  }

  /** Down the first moment over the root of the second one, both corrected for their start from zero. */
  ghost function MovedTo(u: Setup, w: real, m: real, v: real, step: nat): real
    requires 0.0 <= u.cfg.beta1 < 1.0 && 0.0 <= u.cfg.beta2 < 1.0 && step > 0 && v >= 0.0
    requires ExactWithRoots(u) && u.cfg.eps > 0.0
  {
    PowerBelowOne(u.cfg.beta1, step);
    PowerBelowOne(u.cfg.beta2, step);
    QuotientNonNegative(v, 1.0 - Power(u.cfg.beta2, step));
    RootNonNegative(u.a.sqrt, v / (1.0 - Power(u.cfg.beta2, step)));
    w - u.cfg.lr * (m / (1.0 - Power(u.cfg.beta1, step)))
        / (u.a.sqrt(v / (1.0 - Power(u.cfg.beta2, step))) + u.cfg.eps)
  }

  /** The settings that the formulas are about. */
  ghost predicate Proper(u: Setup) {
    && u.Valid() && ExactWithRoots(u) && u.cfg.eps > 0.0
    && 0.0 <= u.cfg.beta1 < 1.0 && 0.0 <= u.cfg.beta2 < 1.0
  }

  lemma PullIs(u: Setup, s: State, sample: Sample, group: Group, k: nat)
    requires u.Valid() && s.Valid() && sample.Valid() && k < Size(group)
    requires u.a == Exact(u.a.sqrt, u.a.softplus, u.a.sigmoid)
    ensures var g, c := SampleGradients(u, s, sample), Clip(u, s, sample);
      Pull(u, s, sample, c, group, k)
      == if group.W1? || group.W2? then Decayed(u, PartOf(g, group), c, GroupOf(s, group).w)[k]
         else Clipped(u, PartOf(g, group), c)[k]
  {
    hide SampleGradients, Clip;
  }

  lemma StepGroup(u: Setup, s: State, sample: Sample, group: Group)
    requires u.Valid() && s.Valid() && sample.Valid() && Observed(sample.mask) > 0
    ensures var g, c := SampleGradients(u, s, sample), Clip(u, s, sample);
      var bc1, bc2 := BiasCorrection(u, u.cfg.beta1, s.step + 1), BiasCorrection(u, u.cfg.beta2, s.step + 1);
      var d := if group.W1? || group.W2? then Decayed(u, PartOf(g, group), c, GroupOf(s, group).w)
               else Clipped(u, PartOf(g, group), c);
      && |d| == Size(group) && GroupOf(Step(u, s, sample), group) == Adam(u, GroupOf(s, group), d, bc1, bc2)
      && Step(u, s, sample).step == s.step + 1
  {
    hide Adam, Decayed, Clipped, BiasCorrection, GradNorm, ClipFactor, Backward, Forward, OutputGradient;
  }

  /** One step on a sample with something observed, weight by weight. */
  lemma StepExactly(u: Setup, s: State, sample: Sample, group: Group, k: nat)
    requires Proper(u) && s.Valid() && sample.Valid() && Observed(sample.mask) > 0
    requires k < Size(group) && GroupOf(s, group).v[k] >= 0.0
    ensures var d := Pull(u, s, sample, Clip(u, s, sample), group, k);
      var t, r := GroupOf(s, group), GroupOf(Step(u, s, sample), group);
      && Step(u, s, sample).step == s.step + 1
      && r.m[k] == u.cfg.beta1 * t.m[k] + (1.0 - u.cfg.beta1) * d
      && r.v[k] == u.cfg.beta2 * t.v[k] + (1.0 - u.cfg.beta2) * (d * d) && r.v[k] >= 0.0
      && r.w[k] == MovedTo(u, t.w[k], r.m[k], r.v[k], s.step + 1)
  {
    hide Adam, Decayed, Clipped, BiasCorrection, Step, Pull, SampleGradients, Clip, MovedTo, ExactWithRoots;
    var g, c := SampleGradients(u, s, sample), Clip(u, s, sample);
    var d := if group.W1? || group.W2? then Decayed(u, PartOf(g, group), c, GroupOf(s, group).w)
             else Clipped(u, PartOf(g, group), c);
    StepGroup(u, s, sample, group);
    ExactIsExact(u);
    PullIs(u, s, sample, group, k);
    AdamAt(u, GroupOf(s, group), d, s.step + 1, k);
  }

  lemma ExactIsExact(u: Setup)
    requires ExactWithRoots(u)
    ensures u.a == Exact(u.a.sqrt, u.a.softplus, u.a.sigmoid)
  {
  }

  // ---------- the moments over a whole run ----------

  /** The sum of `(1 - beta) * beta^(n - 1 - i) * ds[i]` over the first `k` of `n` members. */
  function Weighted(beta: real, ds: seq<real>, n: nat, k: nat): real
    requires k <= |ds| && k <= n
  {
    if k == 0 then 0.0
    else Weighted(beta, ds, n, k - 1) + Times(1.0 - beta, Times(Power(beta, n - k), ds[k - 1]))
  }

  function Squares(ds: seq<real>): (r: seq<real>)
    ensures |r| == |ds| && forall i :: 0 <= i < |ds| ==> r[i] == Times(ds[i], ds[i])
  {
    seq(|ds|, i requires 0 <= i < |ds| => Times(ds[i], ds[i]))
  }

  lemma {:induction false} OneMorePower(beta: real, ds: seq<real>, n: nat, k: nat)
    requires k <= |ds| && k <= n
    ensures Weighted(beta, ds, n + 1, k) == Times(beta, Weighted(beta, ds, n, k))
  {
    hide Times, Power;
    if k == 0 {
      TimesZero(beta);
    } else {
      OneMorePower(beta, ds, n, k - 1);
      PowerStep(beta, n - k);
      Rearrange(beta, Weighted(beta, ds, n, k - 1), 1.0 - beta, Power(beta, n - k), ds[k - 1]);
    }
  }

  lemma PowerStep(beta: real, n: nat)
    ensures Power(beta, n + 1) == Times(beta, Power(beta, n)) && Power(beta, 0) == 1.0
  {
  }

  lemma Rearrange(beta: real, w: real, x: real, p: real, d: real)
    ensures Times(beta, w) + Times(x, Times(Times(beta, p), d)) == Times(beta, w + Times(x, Times(p, d)))
  {
    var y := p * d;
    assert (beta * p) * d == beta * y;
    assert x * (beta * y) == beta * (x * y);
  }

  lemma {:induction false} WeightedPrefix(beta: real, ds: seq<real>, d: real, n: nat, k: nat)
    requires k <= |ds| && k <= n
    ensures Weighted(beta, ds + [d], n, k) == Weighted(beta, ds, n, k)
  {
    hide Times, Power;
    if k > 0 {
      WeightedPrefix(beta, ds, d, n, k - 1);
    }
  }

  lemma WeightedSnoc(beta: real, ds: seq<real>, d: real)
    ensures var n := |ds|;
      Weighted(beta, ds + [d], n + 1, n + 1) == beta * Weighted(beta, ds, n, n) + (1.0 - beta) * d
  {
    hide Power;
    var n := |ds|;
    WeightedPrefix(beta, ds, d, n + 1, n);
    OneMorePower(beta, ds, n, n);
    PowerStep(beta, 0);
    assert (ds + [d])[n] == d;
  }

  /** What pulled at a weight in the steps of a run so far. */
  function Pulls(u: Setup, s: State, samples: seq<Sample>, group: Group, k: nat): seq<real>
    requires u.Valid() && s.Valid() && AllValid(samples) && k < Size(group)
    decreases |samples|
  {
    if samples == [] then []
    else
      var before, last := samples[..|samples| - 1], samples[|samples| - 1];
      var now := Run(u, s, before);
      Pulls(u, s, before, group, k)
      + (if Observed(last.mask) == 0 then [] else [Pull(u, now, last, Clip(u, now, last), group, k)])
  }

  lemma SquaresSnoc(ds: seq<real>, d: real)
    ensures Squares(ds + [d]) == Squares(ds) + [Times(d, d)]
  {
    hide Times;
    forall i | 0 <= i < |ds| ensures Squares(ds + [d])[i] == Squares(ds)[i] {
      assert (ds + [d])[i] == ds[i];
    }
  }

  lemma PullsSnoc(u: Setup, s: State, before: seq<Sample>, last: Sample, group: Group, k: nat)
    requires u.Valid() && s.Valid() && AllValid(before) && last.Valid() && k < Size(group)
    ensures var now := Run(u, s, before);
      && Run(u, s, before + [last]) == Step(u, now, last)
      && Pulls(u, s, before + [last], group, k)
         == Pulls(u, s, before, group, k)
            + (if Observed(last.mask) == 0 then [] else [Pull(u, now, last, Clip(u, now, last), group, k)])
  {
    hide Step, Pull, Clip, Observed;
    var samples := before + [last];
    assert samples[..|samples| - 1] == before && samples[|samples| - 1] == last;
  }

  /** From no steps and no moments. */
  ghost predicate Fresh(s: State) {
    && s.Valid() && s.step == 0
    && forall group: Group, k :: 0 <= k < Size(group) ==> GroupOf(s, group).m[k] == 0.0 && GroupOf(s, group).v[k] == 0.0
  }

  lemma FreshMoments(s: State, group: Group, k: nat)
    requires Fresh(s) && k < Size(group)
    ensures s.Valid() && s.step == 0
    ensures GroupOf(s, group).m[k] == 0.0 && GroupOf(s, group).v[k] == 0.0
  {
  }

  /** A weight's moments are the weighted sums of what has pulled at it and of the squares of that. */
  ghost predicate SumsUp(u: Setup, r: State, group: Group, k: nat, ds: seq<real>)
    requires r.Valid() && k < Size(group)
  {
    && r.step == |ds| && GroupOf(r, group).v[k] >= 0.0
    && GroupOf(r, group).m[k] == Weighted(u.cfg.beta1, ds, |ds|, |ds|)
    && GroupOf(r, group).v[k] == Weighted(u.cfg.beta2, Squares(ds), |ds|, |ds|)
  }

  lemma SumsUpStep(u: Setup, s: State, sample: Sample, group: Group, k: nat, ds: seq<real>)
    requires Proper(u) && s.Valid() && sample.Valid() && Observed(sample.mask) > 0 && k < Size(group)
    requires SumsUp(u, s, group, k, ds)
    ensures SumsUp(u, Step(u, s, sample), group, k, ds + [Pull(u, s, sample, Clip(u, s, sample), group, k)])
  {
    hide Step, Pull, Clip, Weighted, MovedTo, ExactWithRoots, Squares, Observed;
    var d := Pull(u, s, sample, Clip(u, s, sample), group, k);
    StepExactly(u, s, sample, group, k);
    WeightedSnoc(u.cfg.beta1, ds, d);
    WeightedSnoc(u.cfg.beta2, Squares(ds), Times(d, d));
    SquaresSnoc(ds, d);
    assert |Squares(ds)| == |ds|;
  }

  /** After any run from a fresh start the moments of every weight are weighted sums of what pulled at it, and of the
      squares of that, with weights that fall off by beta from step to step. */
  lemma {:induction false} MomentsExactly(u: Setup, s: State, samples: seq<Sample>, group: Group, k: nat)
    requires Proper(u) && Fresh(s) && AllValid(samples) && k < Size(group)
    ensures SumsUp(u, Run(u, s, samples), group, k, Pulls(u, s, samples, group, k))
    decreases |samples|
  {
    hide Step, Pull, Clip, SumsUp, Run, Pulls, ExactWithRoots, Proper, Fresh, Observed;
    FreshMoments(s, group, k);
    ProperIsValid(u);
    if samples == [] {
      NothingPulled(u, s, group, k);
    } else {
      var before, last := samples[..|samples| - 1], samples[|samples| - 1];
      assert samples == before + [last];
      var now, ds := Run(u, s, before), Pulls(u, s, before, group, k);
      MomentsExactly(u, s, before, group, k);
      PullsSnoc(u, s, before, last, group, k);
      if Observed(last.mask) == 0 {
        NoStep(u, now, last);
        assert ds + [] == ds;
      } else {
        SumsUpStep(u, now, last, group, k, ds);
      }
    }
  }

  lemma ProperIsValid(u: Setup)
    requires Proper(u)
    ensures u.Valid()
  {
  }

  lemma NothingPulled(u: Setup, s: State, group: Group, k: nat)
    requires u.Valid() && Fresh(s) && k < Size(group)
    ensures SumsUp(u, Run(u, s, []), group, k, Pulls(u, s, [], group, k))
  {
    FreshMoments(s, group, k);
  }

  lemma NoStep(u: Setup, s: State, sample: Sample)
    requires u.Valid() && s.Valid() && sample.Valid() && Observed(sample.mask) == 0
    ensures Step(u, s, sample) == s
  {
  }

  /** So every step of a run moves every weight by a formula of what has pulled at it until then. */
  lemma MovesExactly(u: Setup, s: State, before: seq<Sample>, last: Sample, group: Group, k: nat)
    requires Proper(u) && Fresh(s) && AllValid(before) && last.Valid() && Observed(last.mask) > 0 && k < Size(group)
    ensures var now, ds := Run(u, s, before), Pulls(u, s, before + [last], group, k);
      var n := |ds|;
      && n > 0 && Weighted(u.cfg.beta2, Squares(ds), n, n) >= 0.0
      && GroupOf(Step(u, now, last), group).w[k]
         == MovedTo(u, GroupOf(now, group).w[k], Weighted(u.cfg.beta1, ds, n, n),
                    Weighted(u.cfg.beta2, Squares(ds), n, n), n)
  {
    hide Step, Pull, Clip, Weighted, MovedTo, ExactWithRoots, Fresh, Run, Pulls, Squares, Observed;
    FreshMoments(s, group, k);
    MomentsExactly(u, s, before, group, k);
    MomentsExactly(u, s, before + [last], group, k);
    PullsSnoc(u, s, before, last, group, k);
    StepExactly(u, Run(u, s, before), last, group, k);
  }

  // ---------- under a pull that stays the same ----------

  ghost predicate Constant(ds: seq<real>, d: real) {
    forall i :: 0 <= i < |ds| ==> ds[i] == d
  }

  /** The corrections for the start from zero are the sums of the weights. */
  lemma {:induction false} WeightedConstant(beta: real, ds: seq<real>, d: real)
    requires Constant(ds, d)
    ensures Weighted(beta, ds, |ds|, |ds|) == (1.0 - Power(beta, |ds|)) * d
    decreases |ds|
  {
    hide Power, Weighted;
    PowerStep(beta, 0);
    if ds == [] {
      WeightedNone(beta);
    } else {
      var n := |ds| - 1;
      var before := ds[..n];
      WeightedConstant(beta, before, d);
      WeightedSnoc(beta, before, d);
      assert ds == before + [d];
      PowerStep(beta, n);
      OneMoreWeight(beta, Power(beta, n), d, Weighted(beta, before, n, n));
    }
  }

  lemma WeightedNone(beta: real)
    ensures Weighted(beta, [], 0, 0) == 0.0
  {
  }

  lemma OneMoreWeight(beta: real, p: real, d: real, w: real)
    requires w == (1.0 - p) * d
    ensures beta * w + (1.0 - beta) * d == (1.0 - Times(beta, p)) * d
  {
    var y := p * d;
    assert (1.0 - p) * d == d - y;
    assert beta * (d - y) == beta * d - beta * y;
    assert (beta * p) * d == beta * y;
  }

  lemma Undone(x: real, y: real, product: real)
    requires x != 0.0 && product == x * y
    ensures product / x == y
  {
    QuotientIs(product, x, y);
  }

  lemma RootOfSquare(sqrt: real -> real, d: real)
    requires IsSquareRoot(sqrt)
    ensures sqrt(d * d) == Abs(d)
  {
    SquareNonNegative(d);
    var r := sqrt(d * d);
    assert Times(r, r) == d * d;
    assert Abs(d) * Abs(d) == d * d;
    EqualSquares(Abs(d), r);
  }

  lemma RootIsRoot(u: Setup)
    requires ExactWithRoots(u)
    ensures IsSquareRoot(u.a.sqrt)
  {
  }

  lemma ConstantMove(u: Setup, w: real, m: real, v: real, d: real, n: nat)
    requires Proper(u) && n > 0 && v >= 0.0
    requires m == (1.0 - Power(u.cfg.beta1, n)) * d && v == (1.0 - Power(u.cfg.beta2, n)) * (d * d)
    ensures MovedTo(u, w, m, v, n) == w - u.cfg.lr * d / (Abs(d) + u.cfg.eps)
  {
    hide Power, IsSquareRoot, ExactWithRoots;
    var p1, p2 := Power(u.cfg.beta1, n), Power(u.cfg.beta2, n);
    PowerBelowOne(u.cfg.beta1, n);
    PowerBelowOne(u.cfg.beta2, n);
    Undone(1.0 - p1, d, m);
    Undone(1.0 - p2, d * d, v);
    RootIsRoot(u);
    RootOfSquare(u.a.sqrt, d);
  }

  /** As long as the same pull acts, every step moves the weight against it by nearly the learning rate: by
      `lr * d / (|d| + eps)`, the first step in particular. */
  lemma ConstantPullDescends(u: Setup, s: State, before: seq<Sample>, last: Sample, group: Group, k: nat, d: real)
    requires Proper(u) && Fresh(s) && AllValid(before) && last.Valid() && Observed(last.mask) > 0 && k < Size(group)
    requires Constant(Pulls(u, s, before + [last], group, k), d)
    ensures var now := Run(u, s, before);
      var moved := GroupOf(Step(u, now, last), group).w[k] - GroupOf(now, group).w[k];
      && moved == -(u.cfg.lr * d / (Abs(d) + u.cfg.eps))
      && (u.cfg.lr >= 0.0 ==> d * moved <= 0.0)
  {
    hide Step, Pull, Clip, Weighted, MovedTo, ExactWithRoots, Fresh, Run, Pulls, Squares, Observed, Power, Constant;
    FreshMoments(s, group, k);
    var ds, w := Pulls(u, s, before + [last], group, k), GroupOf(Run(u, s, before), group).w[k];
    MovesExactly(u, s, before, last, group, k);
    ConstantSums(u, ds, d);
    ConstantMove(u, w, Weighted(u.cfg.beta1, ds, |ds|, |ds|), Weighted(u.cfg.beta2, Squares(ds), |ds|, |ds|), d, |ds|);
    Descends(u.cfg.lr, d, Abs(d) + u.cfg.eps);
  }

  lemma ConstantSums(u: Setup, ds: seq<real>, d: real)
    requires Constant(ds, d)
    ensures Weighted(u.cfg.beta1, ds, |ds|, |ds|) == (1.0 - Power(u.cfg.beta1, |ds|)) * d
    ensures Weighted(u.cfg.beta2, Squares(ds), |ds|, |ds|) == (1.0 - Power(u.cfg.beta2, |ds|)) * (d * d)
  {
    hide Weighted, Power;
    WeightedConstant(u.cfg.beta1, ds, d);
    SquaresOfConstant(ds, d);
    WeightedConstant(u.cfg.beta2, Squares(ds), Times(d, d));
  }

  lemma SquaresOfConstant(ds: seq<real>, d: real)
    requires Constant(ds, d)
    ensures |Squares(ds)| == |ds| && Constant(Squares(ds), Times(d, d))
  {
    hide Times;
  }

  /** The first step, with the pull written out: the gradient clipped to the maximal norm, plus decay for matrices. */
  lemma FirstStepExactly(u: Setup, s: State, sample: Sample, group: Group, k: nat)
    requires Proper(u) && Fresh(s) && sample.Valid() && Observed(sample.mask) > 0 && k < Size(group)
    requires u.cfg.maxGradNorm >= 0.0
    ensures exists c ::
      && IsClip(u, SampleGradients(u, s, sample), c)
      && var d := Pull(u, s, sample, c, group, k);
         GroupOf(Step(u, s, sample), group).w[k] == GroupOf(s, group).w[k] - u.cfg.lr * d / (Abs(d) + u.cfg.eps)
  {
    hide Step, Pull, SampleGradients, MovedTo, ExactWithRoots, IsClip, Fresh, Run, Pulls, Observed, Clip;
    FreshMoments(s, group, k);
    var c := Clip(u, s, sample);
    var d := Pull(u, s, sample, c, group, k);
    ClipIs(u, s, sample);
    ClipsExactly(u, SampleGradients(u, s, sample));
    NoRun(u, s, group, k);
    PullsSnoc(u, s, [], sample, group, k);
    assert Constant(Pulls(u, s, [] + [sample], group, k), d);
    ConstantPullDescends(u, s, [], sample, group, k, d);
  }

  lemma NoRun(u: Setup, s: State, group: Group, k: nat)
    requires u.Valid() && s.Valid() && k < Size(group)
    ensures Run(u, s, []) == s && Pulls(u, s, [], group, k) == []
  {
  }

  lemma ClipIs(u: Setup, s: State, sample: Sample)
    requires u.Valid() && s.Valid() && sample.Valid()
    ensures Clip(u, s, sample) == ClipFactor(u, GradNorm(u, SampleGradients(u, s, sample)))
  {
  }

  lemma Descends(lr: real, d: real, over: real)
    requires over > 0.0
    ensures lr >= 0.0 ==> d * (-(lr * d / over)) <= 0.0
  {
    if lr >= 0.0 {
      var q := lr * d / over;
      SquareNonNegative(d);
      ProductNonNegative(lr, d * d);
      QuotientNonNegative(lr * (d * d), over);
      assert q * over == lr * d;
      assert (d * q) * over == lr * (d * d);
      QuotientIs(lr * (d * d), over, d * q);
    }
  }
}

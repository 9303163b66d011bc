/** One masked training step, as a function of the trainer's state and the sample. */
module TrainingSpec {
  import opened RealFacts
  import opened Dimensions
  import opened FloatArithmetic

  /** A group of weights with its first and second Adam moments; matrices are flattened by rows. */
  datatype Tensor = Tensor(w: seq<real>, m: seq<real>, v: seq<real>) {
    predicate Sized(n: nat) {
      |w| == n && |m| == n && |v| == n
    }
  }

  datatype Config = Config(
    lr: real, beta1: real, beta2: real, eps: real, weightDecay: real, maxGradNorm: real)

  /** What stays the same while training. */
  datatype Setup = Setup(a: Arithmetic, cfg: Config, mean: seq<real>, invStd: seq<real>) {
    predicate Valid() {
      |mean| == F && |invStd| == F
    }
  }

  datatype State = State(
    w1: Tensor, b1: Tensor, w2: Tensor, b2: Tensor, step: nat, totalLoss: real, lossCount: nat)
  {
    predicate Valid() {
      w1.Sized(F * H) && b1.Sized(H) && w2.Sized(H * O) && b2.Sized(O)
    }
  }

  datatype Sample = Sample(features: seq<real>, target: seq<real>, mask: seq<bool>) {
    predicate Valid() {
      |features| == F && |target| == O && |mask| == O
    }
  }

  function Observed(mask: seq<bool>): nat {
    if mask == [] then 0 else (if mask[0] then 1 else 0) + Observed(mask[1..])
  }

  // ---------- forward ----------

  function Normalize(u: Setup, features: seq<real>): (x: seq<real>)
    requires u.Valid() && |features| == F
    ensures |x| == F
  {
    seq(F, i requires 0 <= i < F => u.a.Mul(u.a.Sub(features[i], u.mean[i]), u.invStd[i]))
  }

  function HiddenSum(u: Setup, s: State, x: seq<real>, i: nat, n: nat): real
    requires s.Valid() && |x| == F && i < H && n <= F
  {
    if n == 0 then s.b1.w[i]
    else u.a.Add(HiddenSum(u, s, x, i, n - 1), u.a.Mul(s.w1.w[(n - 1) * H + i], x[n - 1]))
  }

  lemma HiddenSumSteps(u: Setup, s: State, x: seq<real>, i: nat, n: nat)
    requires s.Valid() && |x| == F && i < H && n < F
    ensures HiddenSum(u, s, x, i, 0) == s.b1.w[i]
    ensures HiddenSum(u, s, x, i, n + 1) == u.a.Add(HiddenSum(u, s, x, i, n), u.a.Mul(s.w1.w[n * H + i], x[n]))
  {
  }

  function HiddenPre(u: Setup, s: State, x: seq<real>): (pre: seq<real>)
    requires s.Valid() && |x| == F
    ensures |pre| == H
  {
    seq(H, i requires 0 <= i < H => HiddenSum(u, s, x, i, F))
  }

  function Relu(pre: seq<real>): (h: seq<real>)
    ensures |h| == |pre|
  {
    seq(|pre|, i requires 0 <= i < |pre| => Max(pre[i], 0.0))
  }

  function OutputSum(u: Setup, s: State, h: seq<real>, j: nat, n: nat): real
    requires s.Valid() && |h| == H && j < O && n <= H
  {
    if n == 0 then s.b2.w[j]
    else u.a.Add(OutputSum(u, s, h, j, n - 1), u.a.Mul(s.w2.w[(n - 1) * O + j], h[n - 1]))
  }

  lemma OutputSumSteps(u: Setup, s: State, h: seq<real>, j: nat, n: nat)
    requires s.Valid() && |h| == H && j < O && n < H
    ensures OutputSum(u, s, h, j, 0) == s.b2.w[j]
    ensures OutputSum(u, s, h, j, n + 1) == u.a.Add(OutputSum(u, s, h, j, n), u.a.Mul(s.w2.w[n * O + j], h[n]))
  {
  }

  function OutputPre(u: Setup, s: State, h: seq<real>): (pre: seq<real>)
    requires s.Valid() && |h| == H
    ensures |pre| == O
  {
    seq(O, j requires 0 <= j < O => OutputSum(u, s, h, j, H))
  }

  // ---------- loss and gradients ----------

  function Difference(u: Setup, pre: seq<real>, target: seq<real>, j: nat): real
    requires |pre| == O && |target| == O && j < O
  {
    u.a.Sub(u.a.softplus(pre[j]), target[j])
  }

  function LossSum(u: Setup, pre: seq<real>, target: seq<real>, mask: seq<bool>, n: nat): real
    requires |pre| == O && |target| == O && |mask| == O && n <= O
  {
    if n == 0 then 0.0
    else if mask[n - 1] then
      var diff := Difference(u, pre, target, n - 1);
      u.a.Add(LossSum(u, pre, target, mask, n - 1), u.a.Mul(diff, diff))
    else LossSum(u, pre, target, mask, n - 1)
  }

  lemma LossSumSteps(u: Setup, pre: seq<real>, target: seq<real>, mask: seq<bool>, n: nat)
    requires |pre| == O && |target| == O && |mask| == O && n < O
    ensures LossSum(u, pre, target, mask, 0) == 0.0
    ensures LossSum(u, pre, target, mask, n + 1)
         == if mask[n] then
              u.a.Add(LossSum(u, pre, target, mask, n),
                      u.a.Mul(Difference(u, pre, target, n), Difference(u, pre, target, n)))
            else LossSum(u, pre, target, mask, n)
  {
  }

  function Loss(u: Setup, pre: seq<real>, target: seq<real>, mask: seq<bool>): real
    requires |pre| == O && |target| == O && |mask| == O
  {
    u.a.Div(LossSum(u, pre, target, mask, O), Observed(mask) as real)
  }

  /** The gradient at output `j` after softplus; nothing flows from an unobserved output. */
  function LossGradientAt(u: Setup, pre: seq<real>, target: seq<real>, mask: seq<bool>, j: nat): real
    requires |pre| == O && |target| == O && |mask| == O && j < O
  {
    if mask[j] then u.a.Mul(u.a.Div(2.0, Observed(mask) as real), Difference(u, pre, target, j)) else 0.0
  }

  function OutputGradientAt(u: Setup, pre: seq<real>, target: seq<real>, mask: seq<bool>, j: nat): real
    requires |pre| == O && |target| == O && |mask| == O && j < O
  {
    u.a.Mul(LossGradientAt(u, pre, target, mask, j), u.a.sigmoid(pre[j]))
  }

  function OutputGradient(u: Setup, pre: seq<real>, target: seq<real>, mask: seq<bool>): (d: seq<real>)
    requires |pre| == O && |target| == O && |mask| == O
    ensures |d| == O
  {
    seq(O, j requires 0 <= j < O => OutputGradientAt(u, pre, target, mask, j))
  }

  function BackSum(u: Setup, s: State, dOut: seq<real>, i: nat, n: nat): real
    requires s.Valid() && |dOut| == O && i < H && n <= O
  {
    if n == 0 then 0.0
    else u.a.Add(BackSum(u, s, dOut, i, n - 1), u.a.Mul(s.w2.w[i * O + n - 1], dOut[n - 1]))
  }

  lemma BackSumSteps(u: Setup, s: State, dOut: seq<real>, i: nat, n: nat)
    requires s.Valid() && |dOut| == O && i < H && n < O
    ensures BackSum(u, s, dOut, i, 0) == 0.0
    ensures BackSum(u, s, dOut, i, n + 1)
         == u.a.Add(BackSum(u, s, dOut, i, n), u.a.Mul(s.w2.w[i * O + n], dOut[n]))
  {
  }

  function HiddenGradient(u: Setup, s: State, hPre: seq<real>, dOut: seq<real>): (d: seq<real>)
    requires s.Valid() && |hPre| == H && |dOut| == O
    ensures |d| == H
  {
    seq(H, i requires 0 <= i < H => if hPre[i] > 0.0 then BackSum(u, s, dOut, i, O) else 0.0)
  }

  /** The gradient of a weight matrix: input of the row times gradient of the column. */
  function Outer(u: Setup, left: seq<real>, right: seq<real>): (d: seq<real>)
    requires |right| > 0
    ensures |d| == |left| * |right|
  {
    seq(|left| * |right|, k requires 0 <= k < |left| * |right| =>
      RowInside(k, |left|, |right|); u.a.Mul(left[k / |right|], right[k % |right|]))
  }

  lemma RowInside(k: nat, rows: nat, cols: nat)
    requires cols > 0 && k < rows * cols
    ensures k / cols < rows
  {
    var q := k / cols;
    assert q >= rows ==> q * cols >= rows * cols;
  }

  // ---------- clipping and the optimizer ----------

  function SquareSum(u: Setup, start: real, g: seq<real>, n: nat): real
    requires n <= |g|
  {
    if n == 0 then start else u.a.Add(SquareSum(u, start, g, n - 1), u.a.Mul(g[n - 1], g[n - 1]))
  }

  datatype Gradients = Gradients(w1: seq<real>, b1: seq<real>, w2: seq<real>, b2: seq<real>) {
    predicate Valid() {
      |w1| == F * H && |b1| == H && |w2| == H * O && |b2| == O
    }
  }

  function GradNorm(u: Setup, g: Gradients): real {
    var s1 := SquareSum(u, 0.0, g.w1, |g.w1|);
    var s2 := SquareSum(u, s1, g.b1, |g.b1|);
    var s3 := SquareSum(u, s2, g.w2, |g.w2|);
    u.a.Sqrt(SquareSum(u, s3, g.b2, |g.b2|))
  }

  function ClipFactor(u: Setup, norm: real): real {
    if norm > u.cfg.maxGradNorm then u.a.Div(u.cfg.maxGradNorm, norm) else 1.0
  }

  function Clipped(u: Setup, g: seq<real>, clip: real): (c: seq<real>)
    ensures |c| == |g|
  {
    seq(|g|, k requires 0 <= k < |g| => u.a.Mul(g[k], clip))
  }

  function Decayed(u: Setup, g: seq<real>, clip: real, w: seq<real>): (c: seq<real>)
    requires |w| == |g|
    ensures |c| == |g|
  {
    seq(|g|, k requires 0 <= k < |g| => u.a.Add(u.a.Mul(g[k], clip), u.a.Mul(u.cfg.weightDecay, w[k])))
  }

  function FirstMoment(u: Setup, m: real, g: real): real {
    u.a.Add(u.a.Mul(u.cfg.beta1, m), u.a.Mul(u.a.Sub(1.0, u.cfg.beta1), g))
  }

  function SecondMoment(u: Setup, v: real, g: real): real {
    u.a.Add(u.a.Mul(u.cfg.beta2, v), u.a.Mul(u.a.Mul(u.a.Sub(1.0, u.cfg.beta2), g), g))
  }

  /** The weight after moments `m` and `v` have been brought up to date. */
  function Moved(u: Setup, w: real, m: real, v: real, bc1: real, bc2: real): real {
    u.a.Sub(w, u.a.Div(u.a.Mul(u.cfg.lr, u.a.Div(m, bc1)), u.a.Add(u.a.Sqrt(u.a.Div(v, bc2)), u.cfg.eps)))
  }

  function BiasCorrection(u: Setup, beta: real, t: nat): real {
    u.a.Sub(1.0, u.a.Pow(beta, t))
  }

  function Adam(u: Setup, t: Tensor, g: seq<real>, bc1: real, bc2: real): (r: Tensor)
    requires t.Sized(|g|)
    ensures r.Sized(|g|)
  {
    var n := |g|;
    var m := seq(n, k requires 0 <= k < n => FirstMoment(u, t.m[k], g[k]));
    var v := seq(n, k requires 0 <= k < n => SecondMoment(u, t.v[k], g[k]));
    Tensor(seq(n, k requires 0 <= k < n => Moved(u, t.w[k], m[k], v[k], bc1, bc2)), m, v)
  }

  // ---------- the step ----------

  /** The linear outputs for a sample. */
  function Forward(u: Setup, s: State, features: seq<real>): (pre: seq<real>)
    requires u.Valid() && s.Valid() && |features| == F
    ensures |pre| == O
  {
    OutputPre(u, s, Relu(HiddenPre(u, s, Normalize(u, features))))
  }

  /** The gradients that flow back from `dOut`. */
  function Backward(u: Setup, s: State, features: seq<real>, dOut: seq<real>): (g: Gradients)
    requires u.Valid() && s.Valid() && |features| == F && |dOut| == O
    ensures g.Valid()
  {
    var x := Normalize(u, features);
    var hPre := HiddenPre(u, s, x);
    var dHidden := HiddenGradient(u, s, hPre, dOut);
    Gradients(Outer(u, x, dHidden), dHidden, Outer(u, Relu(hPre), dOut), dOut)
  }

  function Update(u: Setup, s: State, g: Gradients, loss: real): (r: State)
    requires s.Valid() && g.Valid()
    ensures r.Valid()
  {
    var clip := ClipFactor(u, GradNorm(u, g));
    var t := s.step + 1;
    var bc1, bc2 := BiasCorrection(u, u.cfg.beta1, t), BiasCorrection(u, u.cfg.beta2, t);
    State(
      Adam(u, s.w1, Decayed(u, g.w1, clip, s.w1.w), bc1, bc2), Adam(u, s.b1, Clipped(u, g.b1, clip), bc1, bc2),
      Adam(u, s.w2, Decayed(u, g.w2, clip, s.w2.w), bc1, bc2), Adam(u, s.b2, Clipped(u, g.b2, clip), bc1, bc2),
      t, u.a.Add(s.totalLoss, loss), s.lossCount + 1)
  }

  function SampleLoss(u: Setup, s: State, sample: Sample): real
    requires u.Valid() && s.Valid() && sample.Valid()
  {
    if Observed(sample.mask) == 0 then 0.0
    else Loss(u, Forward(u, s, sample.features), sample.target, sample.mask)
  }

  function Step(u: Setup, s: State, sample: Sample): (r: State)
    requires u.Valid() && s.Valid() && sample.Valid()
    ensures r.Valid()
  {
    if Observed(sample.mask) == 0 then s
    else
      var dOut := OutputGradient(u, Forward(u, s, sample.features), sample.target, sample.mask);
      Update(u, s, Backward(u, s, sample.features, dOut), SampleLoss(u, s, sample))
  }

  predicate AllValid(samples: seq<Sample>) {
    forall k :: 0 <= k < |samples| ==> samples[k].Valid()
  }

  function Run(u: Setup, s: State, samples: seq<Sample>): (r: State)
    requires u.Valid() && s.Valid() && AllValid(samples)
    ensures r.Valid()
    decreases |samples|
  {
    if samples == [] then s else Step(u, Run(u, s, samples[..|samples| - 1]), samples[|samples| - 1])
  }

  /** The losses of a run added up, and how many samples had an observed dimension. */
  function RunLoss(u: Setup, s: State, samples: seq<Sample>): (r: (real, nat))
    requires u.Valid() && s.Valid() && AllValid(samples)
    decreases |samples|
  {
    if samples == [] then (0.0, 0)
    else
      var before, last := samples[..|samples| - 1], samples[|samples| - 1];
      var (total, counted) := RunLoss(u, s, before);
      if Observed(last.mask) == 0 then (total, counted)
      else (u.a.Add(total, SampleLoss(u, Run(u, s, before), last)), counted + 1)
  }
}

/** What the network computes in exact arithmetic: shift-free, known at the mean, and linear between switches. */
module Predictions {
  import opened Dimensions
  import opened FloatArithmetic
  import opened Gradients
  import CostModel
  import TrainingSpec

  /** Weights by rows, one row for each input, with biases and the normalisation of the features. */
  datatype Network = Network(
    w1: seq<Vector>, b1: Vector, w2: seq<Vector>, b2: Vector, mean: Vector, invStd: Vector)
  {
    predicate Valid() {
      && IsMatrix(w1, F, H) && |b1| == H && IsMatrix(w2, H, O) && |b2| == O && |mean| == F && |invStd| == F
    }
  }

  function Plus(a: Vector, b: Vector): (r: Vector)
    requires |a| == |b|
    ensures |r| == |a| && forall i :: 0 <= i < |a| ==> r[i] == a[i] + b[i]
  {
    seq(|a|, i requires 0 <= i < |a| => a[i] + b[i])
  }

  function Scaled(v: Vector, scale: Vector): (r: Vector)
    requires |v| == |scale|
    ensures |r| == |v| && forall i :: 0 <= i < |v| ==> r[i] == Times(v[i], scale[i])
  {
    seq(|v|, i requires 0 <= i < |v| => Times(v[i], scale[i]))
  }

  function Rectified(v: Vector): (r: Vector)
    ensures |r| == |v| && forall i :: 0 <= i < |v| ==> r[i] == if v[i] > 0.0 then v[i] else 0.0
  {
    seq(|v|, i requires 0 <= i < |v| => if v[i] > 0.0 then v[i] else 0.0)
  }

  /** What passes a neuron: everything where its signal is positive, nothing elsewhere. */
  function Passed(signals: Vector, v: Vector): (r: Vector)
    requires |signals| == |v|
    ensures |r| == |v| && forall i :: 0 <= i < |v| ==> r[i] == if signals[i] > 0.0 then v[i] else 0.0
  {
    seq(|v|, i requires 0 <= i < |v| => if signals[i] > 0.0 then v[i] else 0.0)
  }

  /** The inputs of the rectifiers. */
  function Signals(n: Network, x: Vector): (r: Vector)
    requires n.Valid() && |x| == F
    ensures |r| == H
  {
    Pre(n.b1, n.w1, Scaled(Minus(x, n.mean), n.invStd))
  }

  /** The inputs of softplus. */
  function Outputs(n: Network, x: Vector): (r: Vector)
    requires n.Valid() && |x| == F
    ensures |r| == O
  {
    Pre(n.b2, n.w2, Rectified(Signals(n, x)))
  }

  // ---------- one layer ----------

  lemma LayerChange(bias: Vector, m: seq<Vector>, v: Vector, v': Vector, j: nat)
    requires |v'| == |v| && IsMatrix(m, |v|, |bias|) && j < |bias|
    ensures Pre(bias, m, v')[j] - Pre(bias, m, v)[j] == ColumnDot(m, Minus(v', v), |bias|, j, |v|)
  {
    hide ColumnDot;
    ColumnOfDifference(m, v, v', |bias|, j, |v|);
  }

  lemma {:induction false} ColumnOfZeros(m: seq<Vector>, v: Vector, cols: nat, j: nat, n: nat)
    requires IsMatrix(m, |v|, cols) && j < cols && n <= |v| && forall i :: 0 <= i < |v| ==> v[i] == 0.0
    ensures ColumnDot(m, v, cols, j, n) == 0.0
  {
    hide Times;
    if n > 0 {
      ColumnOfZeros(m, v, cols, j, n - 1);
      TimesZeroIsZero(m[n - 1][j]);
    }
  }

  lemma ScaledChange(x: Vector, x': Vector, mean: Vector, scale: Vector)
    requires |x| == |x'| == |mean| == |scale|
    ensures Minus(Scaled(Minus(x', mean), scale), Scaled(Minus(x, mean), scale)) == Scaled(Minus(x', x), scale)
  {
    hide Times;
    forall i | 0 <= i < |x|
      ensures Times(x'[i] - mean[i], scale[i]) - Times(x[i] - mean[i], scale[i]) == Times(x'[i] - x[i], scale[i])
    {
      Distribute(scale[i], x'[i] - mean[i], x[i] - mean[i]);
      Distribute(x'[i] - mean[i], scale[i], 0.0);
      Distribute(x[i] - mean[i], scale[i], 0.0);
      Distribute(x'[i] - x[i], scale[i], 0.0);
    }
  }

  // ---------- the network ----------

  /** The signals are the biases at the mean, and change by the first layer's weights against the scaled change. */
  lemma SignalsExactly(n: Network, x: Vector, x': Vector, i: nat)
    requires n.Valid() && |x| == |x'| == F && i < H
    ensures Signals(n, n.mean)[i] == n.b1[i]
    ensures Signals(n, x')[i] - Signals(n, x)[i] == ColumnDot(n.w1, Scaled(Minus(x', x), n.invStd), H, i, F)
  {
    hide Times, ColumnDot;
    var none := Scaled(Minus(n.mean, n.mean), n.invStd);
    forall f | 0 <= f < F ensures none[f] == 0.0 {
      Distribute(0.0, n.invStd[f], 0.0);
      TimesZeroIsZero(n.invStd[f]);
    }
    ColumnOfZeros(n.w1, none, H, i, F);
    ScaledChange(x, x', n.mean, n.invStd);
    LayerChange(n.b1, n.w1, Scaled(Minus(x, n.mean), n.invStd), Scaled(Minus(x', n.mean), n.invStd), i);
  }

  lemma OutputsShift(n: Network, x: Vector, d: Vector)
    requires n.Valid() && |x| == F && |d| == F
    ensures var moved := n.(mean := Plus(n.mean, d)); moved.Valid() && Outputs(moved, Plus(x, d)) == Outputs(n, x)
  {
    assert Minus(Plus(x, d), Plus(n.mean, d)) == Minus(x, n.mean);
  }

  lemma OutputsAtMean(n: Network, j: nat)
    requires n.Valid() && j < O
    ensures Outputs(n, n.mean)[j] == n.b2[j] + ColumnDot(n.w2, Rectified(n.b1), O, j, H)
  {
    hide Signals, ColumnDot;
    forall i | 0 <= i < H ensures Signals(n, n.mean)[i] == n.b1[i] {
      SignalsExactly(n, n.mean, n.mean, i);
    }
    assert Signals(n, n.mean) == n.b1;
  }

  /** Where no neuron switches, the outputs change by both layers' weights against the scaled change. */
  lemma OutputsChange(n: Network, x: Vector, x': Vector, j: nat)
    requires n.Valid() && |x| == |x'| == F && j < O
    requires SamePiece(Signals(n, x), Signals(n, x'))
    ensures var inner := ColumnDots(n.w1, Scaled(Minus(x', x), n.invStd), H, F);
      Outputs(n, x')[j] - Outputs(n, x)[j] == ColumnDot(n.w2, Passed(Signals(n, x), inner), O, j, H)
  {
    hide Signals, ColumnDot;
    var inner := ColumnDots(n.w1, Scaled(Minus(x', x), n.invStd), H, F);
    var s, s' := Signals(n, x), Signals(n, x');
    forall i | 0 <= i < H ensures Rectified(s')[i] - Rectified(s)[i] == Passed(s, inner)[i] {
      SignalsExactly(n, x, x', i);
    }
    assert Minus(Rectified(s'), Rectified(s)) == Passed(s, inner);
    LayerChange(n.b2, n.w2, Rectified(s), Rectified(s'), j);
  }

  // ---------- inference with ternary weights ----------

  function NetworkOf(p: CostModel.Parameters): (n: Network)
    requires p.Valid()
    ensures n.Valid()
  {
    Network(
      seq(F, f requires 0 <= f < F =>
        seq(H, i requires 0 <= i < H => Times(p.codes1[CostModel.At(F, H, f, i)] as real, p.alpha1))),
      p.b1,
      seq(H, i requires 0 <= i < H =>
        seq(O, j requires 0 <= j < O => Times(p.codes2[CostModel.At(H, O, i, j)] as real, p.alpha2))),
      p.b2, p.mean, p.invStd)
  }

  ghost predicate IsExact(a: Arithmetic) {
    a == Exact(a.sqrt, a.softplus, a.sigmoid)
  }

  lemma ExactOperations(a: Arithmetic, x: real, y: real)
    requires IsExact(a)
    ensures a.Add(x, y) == x + y && a.Sub(x, y) == x - y && a.Mul(x, y) == Times(x, y)
  {
  }

  lemma ColumnStep(m: seq<Vector>, v: Vector, cols: nat, j: nat, n: nat)
    requires IsMatrix(m, |v|, cols) && j < cols && n < |v|
    ensures ColumnDot(m, v, cols, j, 0) == 0.0
    ensures ColumnDot(m, v, cols, j, n + 1) == ColumnDot(m, v, cols, j, n) + Times(m[n][j], v[n])
  {
    hide Times;
  }

  lemma ExactWeights(a: Arithmetic, p: CostModel.Parameters)
    requires IsExact(a) && p.Valid()
    ensures var w := NetworkOf(p);
      && w.b1 == p.b1 && w.b2 == p.b2 && w.mean == p.mean && w.invStd == p.invStd
      && (forall f, i :: 0 <= f < F && 0 <= i < H ==> CostModel.Weight1(a, p, f, i) == w.w1[f][i])
      && (forall i, j :: 0 <= i < H && 0 <= j < O ==> CostModel.Weight2(a, p, i, j) == w.w2[i][j])
  {
    hide CostModel.At, IsExact, Times;
    forall f, i | 0 <= f < F && 0 <= i < H ensures CostModel.Weight1(a, p, f, i) == NetworkOf(p).w1[f][i] {
      ExactOperations(a, p.codes1[CostModel.At(F, H, f, i)] as real, p.alpha1);
    }
    forall i, j | 0 <= i < H && 0 <= j < O ensures CostModel.Weight2(a, p, i, j) == NetworkOf(p).w2[i][j] {
      ExactOperations(a, p.codes2[CostModel.At(H, O, i, j)] as real, p.alpha2);
    }
  }

  lemma ExactNormalized(a: Arithmetic, p: CostModel.Parameters, x: Vector, f: nat)
    requires IsExact(a) && p.Valid() && |x| == F && f < F
    ensures CostModel.Normalized(a, p, x, f) == Scaled(Minus(x, p.mean), p.invStd)[f]
  {
    hide IsExact, Times;
    ExactOperations(a, x[f], p.mean[f]);
    ExactOperations(a, x[f] - p.mean[f], p.invStd[f]);
  }

  lemma {:induction false} HiddenSums(a: Arithmetic, p: CostModel.Parameters, x: Vector, i: nat, n: nat)
    requires IsExact(a) && p.Valid() && |x| == F && i < H && n <= F
    ensures var w := NetworkOf(p);
      CostModel.HiddenSum(a, p, x, i, n)
      == w.b1[i] + ColumnDot(w.w1, Scaled(Minus(x, w.mean), w.invStd), H, i, n)
  {
    hide Times, ColumnDot, NetworkOf, IsExact, CostModel.HiddenSum, CostModel.Weight1, CostModel.Normalized, Scaled;
    var w := NetworkOf(p);
    ExactWeights(a, p);
    var z := Scaled(Minus(x, w.mean), w.invStd);
    if n == 0 {
      CostModel.HiddenSumSteps(a, p, x, i, 0);
      ColumnStep(w.w1, z, H, i, 0);
    } else {
      var f := n - 1;
      HiddenSums(a, p, x, i, f);
      CostModel.HiddenSumSteps(a, p, x, i, f);
      ColumnStep(w.w1, z, H, i, f);
      ExactNormalized(a, p, x, f);
      ExactOperations(a, w.w1[f][i], z[f]);
      ExactOperations(a, CostModel.HiddenSum(a, p, x, i, f), Times(w.w1[f][i], z[f]));
    }
  }

  lemma HiddenIs(a: Arithmetic, p: CostModel.Parameters, x: Vector, i: nat)
    requires IsExact(a) && p.Valid() && |x| == F && i < H
    ensures CostModel.Hidden(a, p, x, i) == Rectified(Signals(NetworkOf(p), x))[i]
  {
    hide NetworkOf, ColumnDot, CostModel.HiddenSum;
    HiddenSums(a, p, x, i, F);
  }

  lemma {:induction false} OutputSums(a: Arithmetic, p: CostModel.Parameters, x: Vector, j: nat, n: nat)
    requires IsExact(a) && p.Valid() && |x| == F && j < O && n <= H
    ensures var w := NetworkOf(p);
      CostModel.OutputSum(a, p, x, j, n) == w.b2[j] + ColumnDot(w.w2, Rectified(Signals(w, x)), O, j, n)
  {
    hide Times, ColumnDot, NetworkOf, IsExact, CostModel.OutputSum, CostModel.Weight2, CostModel.Hidden, Signals;
    var w := NetworkOf(p);
    ExactWeights(a, p);
    var h := Rectified(Signals(w, x));
    if n == 0 {
      CostModel.OutputSumSteps(a, p, x, j, 0);
      ColumnStep(w.w2, h, O, j, 0);
    } else {
      var i := n - 1;
      OutputSums(a, p, x, j, i);
      CostModel.OutputSumSteps(a, p, x, j, i);
      ColumnStep(w.w2, h, O, j, i);
      HiddenIs(a, p, x, i);
      ExactOperations(a, w.w2[i][j], h[i]);
      ExactOperations(a, CostModel.OutputSum(a, p, x, j, i), Times(w.w2[i][j], h[i]));
    }
  }

  lemma PredictsOutputs(a: Arithmetic, p: CostModel.Parameters, x: Vector, j: nat)
    requires IsExact(a) && p.Valid() && |x| == F && j < O
    ensures CostModel.Prediction(a, p, x, j) == a.softplus(Outputs(NetworkOf(p), x)[j])
  {
    hide NetworkOf, ColumnDot, CostModel.OutputSum, Signals, Rectified;
    OutputSums(a, p, x, j, H);
  }

  /** Features and mean count by their difference alone, and at the mean only the biases do. */
  lemma PredictionFromMean(a: Arithmetic, p: CostModel.Parameters, x: Vector, d: Vector, j: nat)
    requires IsExact(a) && p.Valid() && |x| == F && |d| == F && j < O
    ensures CostModel.Prediction(a, p.(mean := Plus(p.mean, d)), Plus(x, d), j) == CostModel.Prediction(a, p, x, j)
    ensures CostModel.Prediction(a, p, p.mean, j)
         == a.softplus(p.b2[j] + ColumnDot(NetworkOf(p).w2, Rectified(p.b1), O, j, H))
  {
    hide ColumnDot, Outputs, CostModel.Prediction;
    var moved := p.(mean := Plus(p.mean, d));
    PredictsOutputs(a, p, x, j);
    PredictsOutputs(a, p, p.mean, j);
    PredictsOutputs(a, moved, Plus(x, d), j);
    OutputsShift(NetworkOf(p), x, d);
    OutputsAtMean(NetworkOf(p), j);
  }

  /** Where no neuron switches, the input of softplus changes by the product of both layers' weights. */
  lemma PredictionChange(a: Arithmetic, p: CostModel.Parameters, x: Vector, x': Vector, j: nat)
    requires IsExact(a) && p.Valid() && |x| == |x'| == F && j < O
    requires SamePiece(Signals(NetworkOf(p), x), Signals(NetworkOf(p), x'))
    ensures exists y, y' ::
      && CostModel.Prediction(a, p, x, j) == a.softplus(y) && CostModel.Prediction(a, p, x', j) == a.softplus(y')
      && var w := NetworkOf(p);
         var inner := ColumnDots(w.w1, Scaled(Minus(x', x), p.invStd), H, F);
         y' - y == ColumnDot(w.w2, Passed(Signals(w, x), inner), O, j, H)
  {
    hide ColumnDot, Signals, Outputs, CostModel.Prediction, SamePiece;
    PredictsOutputs(a, p, x, j);
    PredictsOutputs(a, p, x', j);
    OutputsChange(NetworkOf(p), x, x', j);
  }

  // ---------- the trainer ----------

  function NetworkIn(u: TrainingSpec.Setup, s: TrainingSpec.State): (n: Network)
    requires u.Valid() && s.Valid()
    ensures n.Valid()
  {
    Network(Rows(s.w1.w, F, H), s.b1.w, Rows(s.w2.w, H, O), s.b2.w, u.mean, u.invStd)
  }

  lemma NormalizedIs(u: TrainingSpec.Setup, x: Vector)
    requires IsExact(u.a) && u.Valid() && |x| == F
    ensures TrainingSpec.Normalize(u, x) == Scaled(Minus(x, u.mean), u.invStd)
  {
    hide IsExact, Times;
    forall f | 0 <= f < F ensures TrainingSpec.Normalize(u, x)[f] == Scaled(Minus(x, u.mean), u.invStd)[f] {
      ExactOperations(u.a, x[f], u.mean[f]);
      ExactOperations(u.a, x[f] - u.mean[f], u.invStd[f]);
    }
  }

  lemma ForwardIsOutputs(u: TrainingSpec.Setup, s: TrainingSpec.State, x: Vector)
    requires IsExact(u.a) && u.Valid() && s.Valid() && |x| == F
    ensures TrainingSpec.Forward(u, s, x) == Outputs(NetworkIn(u, s), x)
  {
    hide Pre, Rows, TrainingSpec.HiddenPre, TrainingSpec.OutputPre;
    var z := TrainingSpec.Normalize(u, x);
    NormalizedIs(u, x);
    HiddenAreLayer(u, s, z);
    var h := TrainingSpec.Relu(TrainingSpec.HiddenPre(u, s, z));
    assert h == Rectified(TrainingSpec.HiddenPre(u, s, z));
    OutputsAreLayer(u, s, h);
  }

  /** The trainer's forward pass is the same function of features and mean. */
  lemma ForwardFromMean(u: TrainingSpec.Setup, s: TrainingSpec.State, x: Vector, d: Vector, j: nat)
    requires IsExact(u.a) && u.Valid() && s.Valid() && |x| == F && |d| == F && j < O
    ensures TrainingSpec.Forward(u.(mean := Plus(u.mean, d)), s, Plus(x, d)) == TrainingSpec.Forward(u, s, x)
    ensures TrainingSpec.Forward(u, s, u.mean)[j]
         == s.b2.w[j] + ColumnDot(Rows(s.w2.w, H, O), Rectified(s.b1.w), O, j, H)
  {
    hide ColumnDot, Outputs, TrainingSpec.Forward;
    ForwardIsOutputs(u, s, x);
    ForwardIsOutputs(u, s, u.mean);
    ForwardIsOutputs(u.(mean := Plus(u.mean, d)), s, Plus(x, d));
    OutputsShift(NetworkIn(u, s), x, d);
    OutputsAtMean(NetworkIn(u, s), j);
  }

  lemma ForwardChange(u: TrainingSpec.Setup, s: TrainingSpec.State, x: Vector, x': Vector, j: nat)
    requires IsExact(u.a) && u.Valid() && s.Valid() && |x| == |x'| == F && j < O
    requires SamePiece(Signals(NetworkIn(u, s), x), Signals(NetworkIn(u, s), x'))
    ensures var inner := ColumnDots(Rows(s.w1.w, F, H), Scaled(Minus(x', x), u.invStd), H, F);
      TrainingSpec.Forward(u, s, x')[j] - TrainingSpec.Forward(u, s, x)[j]
      == ColumnDot(Rows(s.w2.w, H, O), Passed(Signals(NetworkIn(u, s), x), inner), O, j, H)
  {
    hide ColumnDot, Signals, Outputs, TrainingSpec.Forward, SamePiece;
    ForwardIsOutputs(u, s, x);
    ForwardIsOutputs(u, s, x');
    OutputsChange(NetworkIn(u, s), x, x', j);
  }
}

/** The trainer: weights and moments in arrays that every masked step updates in place. */
module Trainer {
  import opened RealFacts
  import opened Dimensions
  import opened FloatArithmetic
  import opened TrainingSpec

  method AdamUpdate(u: Setup, w: array<real>, m: array<real>, v: array<real>, g: array<real>, bc1: real, bc2: real)
    requires w.Length == m.Length == v.Length == g.Length
    requires w != m && w != v && m != v && g != w && g != m && g != v
    modifies w, m, v
    ensures Tensor(w[..], m[..], v[..]) == Adam(u, Tensor(old(w[..]), old(m[..]), old(v[..])), g[..], bc1, bc2)
  {
    hide FirstMoment, SecondMoment, Moved;
    for i := 0 to w.Length
      invariant forall k :: 0 <= k < i ==>
        && m[k] == FirstMoment(u, old(m[k]), g[k]) && v[k] == SecondMoment(u, old(v[k]), g[k])
        && w[k] == Moved(u, old(w[k]), m[k], v[k], bc1, bc2)
      invariant forall k :: i <= k < w.Length ==> m[k] == old(m[k]) && v[k] == old(v[k]) && w[k] == old(w[k])
    {
      UpdateAt(u, w, m, v, g, bc1, bc2, i);
    }
    assert Tensor(w[..], m[..], v[..]) == Adam(u, Tensor(old(w[..]), old(m[..]), old(v[..])), g[..], bc1, bc2);
  }

  method UpdateAt(u: Setup, w: array<real>, m: array<real>, v: array<real>, g: array<real>,
                  bc1: real, bc2: real, i: nat)
    requires i < w.Length == m.Length == v.Length == g.Length
    requires w != m && w != v && m != v && g != w && g != m && g != v
    modifies w, m, v
    ensures m[..] == old(m[..])[i := FirstMoment(u, old(m[i]), g[i])]
    ensures v[..] == old(v[..])[i := SecondMoment(u, old(v[i]), g[i])]
    ensures w[..] == old(w[..])[i := Moved(u, old(w[i]), m[i], v[i], bc1, bc2)]
  {
    var a, cfg := u.a, u.cfg;
    m[i] := a.Add(a.Mul(cfg.beta1, m[i]), a.Mul(a.Sub(1.0, cfg.beta1), g[i]));
    v[i] := a.Add(a.Mul(cfg.beta2, v[i]), a.Mul(a.Mul(a.Sub(1.0, cfg.beta2), g[i]), g[i]));
    var mHat := a.Div(m[i], bc1);
    var vHat := a.Div(v[i], bc2);
    w[i] := a.Sub(w[i], a.Div(a.Mul(cfg.lr, mHat), a.Add(a.Sqrt(vHat), cfg.eps)));
  }

  method AddSquares(u: Setup, start: real, g: array<real>) returns (sum: real)
    ensures sum == SquareSum(u, start, g[..], g.Length)
  {
    sum := start;
    for i := 0 to g.Length
      invariant sum == SquareSum(u, start, g[..], i)
    {
      sum := u.a.Add(sum, u.a.Mul(g[i], g[i]));
    }
  }

  method ComputeGradNorm(u: Setup, dW1: array<real>, dB1: array<real>, dW2: array<real>, dB2: array<real>)
    returns (norm: real)
    ensures norm == GradNorm(u, Gradients(dW1[..], dB1[..], dW2[..], dB2[..]))
  {
    hide SquareSum;
    var s1 := AddSquares(u, 0.0, dW1);
    var s2 := AddSquares(u, s1, dB1);
    var s3 := AddSquares(u, s2, dW2);
    var s4 := AddSquares(u, s3, dB2);
    norm := u.a.Sqrt(s4);
  }

  method ClipFor(u: Setup, norm: real) returns (clip: real)
    ensures clip == ClipFactor(u, norm)
  {
    clip := 1.0;
    if norm > u.cfg.maxGradNorm {
      clip := u.a.Div(u.cfg.maxGradNorm, norm);
    }
  }

  method CountObserved(mask: seq<bool>) returns (count: nat)
    ensures count == Observed(mask)
  {
    count := 0;
    for i := 0 to |mask|
      invariant count + Observed(mask[i..]) == Observed(mask)
    {
      count := if mask[i] then count + 1 else count;
    }
  }

  method ClipGradient(u: Setup, g: array<real>, clip: real) returns (c: array<real>)
    ensures fresh(c) && c[..] == Clipped(u, g[..], clip)
  {
    c := new real[g.Length](_ => 0.0);
    for k := 0 to g.Length
      invariant forall i :: 0 <= i < k ==> c[i] == u.a.Mul(g[i], clip)
    {
      c[k] := u.a.Mul(g[k], clip);
    }
  }

  method DecayGradient(u: Setup, g: array<real>, clip: real, w: array<real>) returns (c: array<real>)
    requires g.Length == w.Length
    ensures fresh(c) && c[..] == Decayed(u, g[..], clip, w[..])
  {
    c := new real[g.Length](_ => 0.0);
    for k := 0 to g.Length
      invariant forall i :: 0 <= i < k ==> c[i] == u.a.Add(u.a.Mul(g[i], clip), u.a.Mul(u.cfg.weightDecay, w[i]))
    {
      c[k] := u.a.Add(u.a.Mul(g[k], clip), u.a.Mul(u.cfg.weightDecay, w[k]));
    }
  }

  /** The loss of the observed outputs, and its gradient. */
  method MaskedLoss(u: Setup, pre: array<real>, target: seq<real>, mask: seq<bool>)
    returns (loss: real, dY: array<real>)
    requires pre.Length == O && |target| == O && |mask| == O
    ensures loss == Loss(u, pre[..], target, mask)
    ensures fresh(dY) && dY.Length == O
    ensures forall j :: 0 <= j < O ==> dY[j] == LossGradientAt(u, pre[..], target, mask, j)
  {
    hide Observed, LossSum;
    LossSumSteps(u, pre[..], target, mask, 0);
    var count := CountObserved(mask);
    var a := u.a;
    loss := 0.0;
    dY := new real[O](_ => 0.0);
    var scale := a.Div(2.0, count as real);
    for j := 0 to O
      modifies dY
      invariant loss == LossSum(u, pre[..], target, mask, j)
      invariant forall k :: 0 <= k < O ==>
        dY[k] == if k < j && mask[k] then a.Mul(scale, Difference(u, pre[..], target, k)) else 0.0
    {
      LossSumSteps(u, pre[..], target, mask, j);
      if mask[j] {
        var diff := a.Sub(a.softplus(pre[j]), target[j]);
        dY[j] := a.Mul(scale, diff);
        loss := a.Add(loss, a.Mul(diff, diff));
      }
    }
    loss := a.Div(loss, count as real);
  }

  method ThroughSoftplus(u: Setup, pre: array<real>, dY: array<real>) returns (dOut: array<real>)
    requires pre.Length == O && dY.Length == O
    ensures fresh(dOut) && dOut.Length == O
    ensures forall k :: 0 <= k < O ==> dOut[k] == u.a.Mul(dY[k], u.a.sigmoid(pre[k]))
  {
    dOut := new real[O](_ => 0.0);
    for j := 0 to O
      modifies dOut
      invariant forall k :: 0 <= k < j ==> dOut[k] == u.a.Mul(dY[k], u.a.sigmoid(pre[k]))
    {
      dOut[j] := u.a.Mul(dY[j], u.a.sigmoid(pre[j]));
    }
  }

  method ApplyRelu(pre: array<real>) returns (post: array<real>)
    ensures fresh(post) && post[..] == Relu(pre[..])
  {
    post := new real[pre.Length](i requires 0 <= i < pre.Length reads pre => pre[i]);
    for i := 0 to pre.Length
      modifies post
      invariant forall k :: 0 <= k < pre.Length ==> post[k] == if k < i then Max(pre[k], 0.0) else pre[k]
    {
      post[i] := Max(post[i], 0.0);
    }
  }

  /** The arrays of one group of weights. */
  class Buffers {
    const w: array<real>
    const m: array<real>
    const v: array<real>

    ghost function Arrays(): set<object> {
      {w, m, v}
    }

    ghost predicate Valid(n: nat) {
      && w.Length == n && m.Length == n && v.Length == n
      && w != m && w != v && m != v
    }

    ghost function Value(): (t: Tensor)
      reads Arrays()
      ensures t.Sized(w.Length) <==> m.Length == w.Length && v.Length == w.Length
    {
      Tensor(w[..], m[..], v[..])
    }

    /** Given weights and zero moments. */
    constructor (weights: seq<real>)
      ensures Valid(|weights|) && fresh(w) && fresh(m) && fresh(v)
      ensures Value() == Tensor(weights, seq(|weights|, _ => 0.0), seq(|weights|, _ => 0.0))
    {
      w := new real[|weights|](i requires 0 <= i < |weights| => weights[i]);
      m := new real[|weights|](_ => 0.0);
      v := new real[|weights|](_ => 0.0);
      new;
      assert w[..] == weights;
    }

    /** A matrix moves along its clipped gradient, to which weight decay has been added. */
    method MoveMatrix(u: Setup, g: array<real>, clip: real, bc1: real, bc2: real)
      requires Valid(g.Length) && g !in Arrays()
      modifies Arrays()
      ensures Value() == old(Adam(u, Value(), Decayed(u, g[..], clip, Value().w), bc1, bc2))
    {
      hide Adam, Decayed;
      var decayed := DecayGradient(u, g, clip, w);
      AdamUpdate(u, w, m, v, decayed, bc1, bc2);
    }

    /** A bias moves along its clipped gradient. */
    method MoveBias(u: Setup, g: array<real>, clip: real, bc1: real, bc2: real)
      requires Valid(g.Length) && g !in Arrays()
      modifies Arrays()
      ensures Value() == old(Adam(u, Value(), Clipped(u, g[..], clip), bc1, bc2))
    {
      hide Adam, Clipped;
      var clipped := ClipGradient(u, g, clip);
      AdamUpdate(u, w, m, v, clipped, bc1, bc2);
    }
  }

  /** Moves the weights and the biases of one layer. */
  method MoveLayer(u: Setup, weights: Buffers, biases: Buffers, dW: array<real>, dB: array<real>,
                   clip: real, bc1: real, bc2: real)
    requires weights.Valid(dW.Length) && biases.Valid(dB.Length)
    requires weights.Arrays() !! biases.Arrays() && {dW, dB} !! weights.Arrays() + biases.Arrays()
    modifies weights.Arrays(), biases.Arrays()
    ensures weights.Value() == old(Adam(u, weights.Value(), Decayed(u, dW[..], clip, weights.Value().w), bc1, bc2))
    ensures biases.Value() == old(Adam(u, biases.Value(), Clipped(u, dB[..], clip), bc1, bc2))
  {
    hide Adam, Decayed, Clipped;
    weights.MoveMatrix(u, dW, clip, bc1, bc2);
    biases.MoveBias(u, dB, clip, bc1, bc2);
  }

  class BitNetTrainer {
    const arithmetic: Arithmetic
    const config: Config
    var featureMean: seq<real>
    var featureInvStd: seq<real>
    const w1: Buffers
    const b1: Buffers
    const w2: Buffers
    const b2: Buffers
    var step: nat
    var totalLoss: real
    var lossCount: nat

    ghost predicate Valid()
      reads this
    {
      && |featureMean| == F && |featureInvStd| == F
      && w1.Valid(F * H) && b1.Valid(H) && w2.Valid(H * O) && b2.Valid(O)
      && w1.Arrays() !! b1.Arrays() !! w2.Arrays() !! b2.Arrays()
    }

    ghost function Weights(): set<object> {
      w1.Arrays() + b1.Arrays() + w2.Arrays() + b2.Arrays()
    }

    function Fixed(): (u: Setup)
      reads this
    {
      Setup(arithmetic, config, featureMean, featureInvStd)
    }

    ghost function Model(): (s: State)
      requires Valid()
      reads this, Weights()
      ensures s.Valid()
    {
      State(w1.Value(), b1.Value(), w2.Value(), b2.Value(), step, totalLoss, lossCount)
    }

    /** Fine-tuning starts from given weights, with zero moments and nothing counted. */
    constructor FromWeights(a: Arithmetic, c: Config, weights1: seq<real>, bias1: seq<real>,
                            weights2: seq<real>, bias2: seq<real>)
      requires |weights1| == F * H && |bias1| == H && |weights2| == H * O && |bias2| == O
      ensures Valid() && fresh(Weights())
      ensures Fixed() == Setup(a, c, seq(F, _ => 0.0), seq(F, _ => 1.0))
      ensures Model() == State(
        Tensor(weights1, seq(F * H, _ => 0.0), seq(F * H, _ => 0.0)), Tensor(bias1, seq(H, _ => 0.0), seq(H, _ => 0.0)),
        Tensor(weights2, seq(H * O, _ => 0.0), seq(H * O, _ => 0.0)), Tensor(bias2, seq(O, _ => 0.0), seq(O, _ => 0.0)),
        0, 0.0, 0)
    {
      arithmetic, config := a, c;
      featureMean, featureInvStd := seq(F, _ => 0.0), seq(F, _ => 1.0);
      w1 := new Buffers(weights1);
      b1 := new Buffers(bias1);
      w2 := new Buffers(weights2);
      b2 := new Buffers(bias2);
      step, totalLoss, lossCount := 0, 0.0, 0;
    }

    method NormalizeFeatures(features: seq<real>) returns (x: array<real>)
      requires Valid() && |features| == F
      ensures fresh(x) && x[..] == Normalize(Fixed(), features)
    {
      var a := arithmetic;
      x := new real[F](_ => 0.0);
      for i := 0 to F
        modifies x
        invariant forall k :: 0 <= k < i ==> x[k] == a.Mul(a.Sub(features[k], featureMean[k]), featureInvStd[k])
      {
        x[i] := a.Mul(a.Sub(features[i], featureMean[i]), featureInvStd[i]);
      }
    }

    method ForwardHidden(x: array<real>) returns (pre: array<real>, post: array<real>)
      requires Valid() && x.Length == F
      ensures fresh(pre) && fresh(post) && pre != post
      ensures pre[..] == HiddenPre(Fixed(), Model(), x[..]) && post[..] == Relu(pre[..])
    {
      hide HiddenSum;
      ghost var u, s := Fixed(), Model();
      pre := new real[H](i requires 0 <= i < H reads this, b1.w => b1.w[i]);
      forall i | 0 <= i < H ensures pre[i] == HiddenSum(u, s, x[..], i, 0) {
        HiddenSumSteps(u, s, x[..], i, 0);
      }
      for j := 0 to F
        modifies pre
        invariant forall k :: 0 <= k < H ==> pre[k] == HiddenSum(u, s, x[..], k, j)
      {
        for i := 0 to H
          modifies pre
          invariant forall k :: 0 <= k < i ==> pre[k] == HiddenSum(u, s, x[..], k, j + 1)
          invariant forall k :: i <= k < H ==> pre[k] == HiddenSum(u, s, x[..], k, j)
        {
          HiddenSumSteps(u, s, x[..], i, j);
          pre[i] := arithmetic.Add(pre[i], arithmetic.Mul(w1.w[j * H + i], x[j]));
        }
      }
      post := ApplyRelu(pre);
    }

    /** The linear outputs; softplus comes after. */
    method ForwardOutput(h: array<real>) returns (out: array<real>)
      requires Valid() && h.Length == H
      ensures fresh(out) && out[..] == OutputPre(Fixed(), Model(), h[..])
    {
      hide OutputSum;
      ghost var u, s := Fixed(), Model();
      out := new real[O](j requires 0 <= j < O reads this, b2.w => b2.w[j]);
      forall j | 0 <= j < O ensures out[j] == OutputSum(u, s, h[..], j, 0) {
        OutputSumSteps(u, s, h[..], j, 0);
      }
      for i := 0 to H
        modifies out
        invariant forall k :: 0 <= k < O ==> out[k] == OutputSum(u, s, h[..], k, i)
      {
        for j := 0 to O
          modifies out
          invariant forall k :: 0 <= k < j ==> out[k] == OutputSum(u, s, h[..], k, i + 1)
          invariant forall k :: j <= k < O ==> out[k] == OutputSum(u, s, h[..], k, i)
        {
          OutputSumSteps(u, s, h[..], j, i);
          out[j] := arithmetic.Add(out[j], arithmetic.Mul(w2.w[i * O + j], h[i]));
        }
      }
    }

    /** Gradients of the output weights, and what flows back to the hidden neurons. */
    method BackwardOutput(h: array<real>, dOut: array<real>) returns (dW2: array<real>, dH: array<real>)
      requires Valid() && h.Length == H && dOut.Length == O
      ensures fresh(dW2) && fresh(dH) && dW2 != dH
      ensures dW2[..] == Outer(Fixed(), h[..], dOut[..])
      ensures dH.Length == H && forall i :: 0 <= i < H ==> dH[i] == BackSum(Fixed(), Model(), dOut[..], i, O)
    {
      hide BackSum;
      ghost var u, s := Fixed(), Model();
      dW2 := new real[H * O](_ => 0.0);
      dH := new real[H](_ => 0.0);
      forall i | 0 <= i < H ensures dH[i] == BackSum(u, s, dOut[..], i, 0) {
        BackSumSteps(u, s, dOut[..], i, 0);
      }
      for j := 0 to O
        modifies dW2, dH
        invariant forall k :: 0 <= k < H * O && k % O < j ==> dW2[k] == arithmetic.Mul(h[k / O], dOut[k % O])
        invariant forall i :: 0 <= i < H ==> dH[i] == BackSum(u, s, dOut[..], i, j)
      {
        forall i | 0 <= i < H
          ensures BackSum(u, s, dOut[..], i, j + 1)
               == arithmetic.Add(BackSum(u, s, dOut[..], i, j), arithmetic.Mul(w2.w[i * O + j], dOut[j]))
        {
          BackSumSteps(u, s, dOut[..], i, j);
        }
        BackwardFrom(h, dOut, j, dW2, dH);
      }
    }

    /** The part of the backward pass that output `j` contributes. */
    method BackwardFrom(h: array<real>, dOut: array<real>, j: nat, dW2: array<real>, dH: array<real>)
      requires Valid() && h.Length == H && dOut.Length == O && j < O && dW2.Length == H * O && dH.Length == H
      requires {dW2, dH} !! {h, dOut} + Weights() && dW2 != dH
      modifies dW2, dH
      ensures forall k :: 0 <= k < H * O ==>
        dW2[k] == if k % O == j then arithmetic.Mul(h[k / O], dOut[j]) else old(dW2[k])
      ensures forall i :: 0 <= i < H ==>
        dH[i] == arithmetic.Add(old(dH[i]), arithmetic.Mul(w2.w[i * O + j], dOut[j]))
    {
      for i := 0 to H
        modifies dW2, dH
        invariant forall k :: 0 <= k < H * O ==>
          dW2[k] == if k % O == j && k / O < i then arithmetic.Mul(h[k / O], dOut[j]) else old(dW2[k])
        invariant forall k :: 0 <= k < i ==>
          dH[k] == arithmetic.Add(old(dH[k]), arithmetic.Mul(w2.w[k * O + j], dOut[j]))
        invariant forall k :: i <= k < H ==> dH[k] == old(dH[k])
      {
        dW2[i * O + j] := arithmetic.Mul(h[i], dOut[j]);
        dH[i] := arithmetic.Add(dH[i], arithmetic.Mul(w2.w[i * O + j], dOut[j]));
      }
    }

    /** Gradients of the hidden layer: blocked where the neuron was off. */
    method BackwardHidden(x: array<real>, hPre: array<real>, dH: array<real>)
      returns (dW1: array<real>, dHPre: array<real>)
      requires Valid() && x.Length == F && hPre.Length == H && dH.Length == H
      ensures fresh(dW1) && fresh(dHPre) && dHPre.Length == H
      ensures forall i :: 0 <= i < H ==> dHPre[i] == if hPre[i] > 0.0 then dH[i] else 0.0
      ensures dW1[..] == Outer(Fixed(), x[..], dHPre[..])
    {
      dHPre := new real[H](_ => 0.0);
      for i := 0 to H
        modifies dHPre
        invariant forall k :: 0 <= k < i ==> dHPre[k] == if hPre[k] > 0.0 then dH[k] else 0.0
      {
        dHPre[i] := if hPre[i] > 0.0 then dH[i] else 0.0;
      }
      dW1 := new real[F * H](_ => 0.0);
      for i := 0 to H
        modifies dW1
        invariant forall k :: 0 <= k < F * H && k % H < i ==> dW1[k] == arithmetic.Mul(x[k / H], dHPre[k % H])
      {
        HiddenColumn(x, dHPre, i, dW1);
      }
    }

    method HiddenColumn(x: array<real>, dHPre: array<real>, i: nat, dW1: array<real>)
      requires x.Length == F && dHPre.Length == H && i < H && dW1.Length == F * H
      requires dW1 != x && dW1 != dHPre
      modifies dW1
      ensures forall k :: 0 <= k < F * H ==>
        dW1[k] == if k % H == i then arithmetic.Mul(x[k / H], dHPre[i]) else old(dW1[k])
    {
      for j := 0 to F
        invariant forall k :: 0 <= k < F * H ==>
          dW1[k] == if k % H == i && k / H < j then arithmetic.Mul(x[k / H], dHPre[i]) else old(dW1[k])
      {
        dW1[j * H + i] := arithmetic.Mul(x[j], dHPre[i]);
      }
    }

    /** Loss and gradients of one sample; nothing of the trainer changes yet. */
    method ComputeGradients(sample: Sample)
      returns (loss: real, dW1: array<real>, dB1: array<real>, dW2: array<real>, dB2: array<real>)
      requires Valid() && sample.Valid() && Observed(sample.mask) > 0
      ensures fresh(dW1) && fresh(dB1) && fresh(dW2) && fresh(dB2)
      ensures loss == SampleLoss(Fixed(), Model(), sample)
      ensures var f := Forward(Fixed(), Model(), sample.features);
        var dOut := OutputGradient(Fixed(), f, sample.target, sample.mask);
        Gradients(dW1[..], dB1[..], dW2[..], dB2[..]) == Backward(Fixed(), Model(), sample.features, dOut)
    {
      hide Outer, Normalize, HiddenPre, Relu, OutputPre, Loss, LossGradientAt, Observed;
      ghost var u, s := Fixed(), Model();
      var x := NormalizeFeatures(sample.features);
      var hPre, h := ForwardHidden(x);
      var yPre := ForwardOutput(h);
      var dY;
      loss, dY := MaskedLoss(Fixed(), yPre, sample.target, sample.mask);
      var dOut := ThroughSoftplus(Fixed(), yPre, dY);
      assert dOut[..] == OutputGradient(u, yPre[..], sample.target, sample.mask);
      var dH;
      dW2, dH := BackwardOutput(h, dOut);
      dB2 := dOut;
      dW1, dB1 := BackwardHidden(x, hPre, dH);
      assert dB1[..] == HiddenGradient(u, s, hPre[..], dOut[..]);
    }

    method MoveAll(u: Setup, dW1: array<real>, dB1: array<real>, dW2: array<real>, dB2: array<real>,
                   clip: real, bc1: real, bc2: real)
      requires Valid() && dW1.Length == F * H && dB1.Length == H && dW2.Length == H * O && dB2.Length == O
      requires {dW1, dB1, dW2, dB2} !! Weights()
      modifies Weights()
      ensures w1.Value() == old(Adam(u, w1.Value(), Decayed(u, dW1[..], clip, w1.Value().w), bc1, bc2))
      ensures b1.Value() == old(Adam(u, b1.Value(), Clipped(u, dB1[..], clip), bc1, bc2))
      ensures w2.Value() == old(Adam(u, w2.Value(), Decayed(u, dW2[..], clip, w2.Value().w), bc1, bc2))
      ensures b2.Value() == old(Adam(u, b2.Value(), Clipped(u, dB2[..], clip), bc1, bc2))
    {
      hide Adam, Decayed, Clipped;
      MoveLayer(u, w1, b1, dW1, dB1, clip, bc1, bc2);
      MoveLayer(u, w2, b2, dW2, dB2, clip, bc1, bc2);
    }

    /** Clips the gradients, adds weight decay and lets the optimizer move every weight. */
    method ApplyGradients(dW1: array<real>, dB1: array<real>, dW2: array<real>, dB2: array<real>, loss: real)
      requires Valid() && dW1.Length == F * H && dB1.Length == H && dW2.Length == H * O && dB2.Length == O
      requires {dW1, dB1, dW2, dB2} !! Weights()
      modifies this, Weights()
      ensures Valid() && Fixed() == old(Fixed())
      ensures Model() == old(Update(Fixed(), Model(), Gradients(dW1[..], dB1[..], dW2[..], dB2[..]), loss))
    {
      hide Adam, Decayed, Clipped, GradNorm, ClipFactor, BiasCorrection;
      var u := Fixed();
      var norm := ComputeGradNorm(u, dW1, dB1, dW2, dB2);
      var clip := ClipFor(u, norm);
      step := step + 1;
      var bc1 := BiasCorrection(u, config.beta1, step);
      var bc2 := BiasCorrection(u, config.beta2, step);
      MoveAll(u, dW1, dB1, dW2, dB2, clip, bc1, bc2);
      totalLoss := arithmetic.Add(totalLoss, loss);
      lossCount := lossCount + 1;
    }

    method TrainStepMasked(sample: Sample) returns (loss: real)
      requires Valid() && sample.Valid()
      modifies this, Weights()
      ensures Valid() && Fixed() == old(Fixed())
      ensures Model() == old(Step(Fixed(), Model(), sample)) && loss == old(SampleLoss(Fixed(), Model(), sample))
    {
      hide Update, Backward, Forward, OutputGradient, Observed;
      var observedCount := CountObserved(sample.mask);
      if observedCount == 0 {
        return 0.0;
      }
      var dW1, dB1, dW2, dB2;
      loss, dW1, dB1, dW2, dB2 := ComputeGradients(sample);
      ApplyGradients(dW1, dB1, dW2, dB2, loss);
    }

    method TrainIfObserved(sample: Sample, total: real, counted: nat) returns (newTotal: real, newCounted: nat)
      requires Valid() && sample.Valid()
      modifies this, Weights()
      ensures Valid() && Fixed() == old(Fixed()) && Model() == old(Step(Fixed(), Model(), sample))
      ensures (newTotal, newCounted)
           == if Observed(sample.mask) == 0 then (total, counted)
              else (arithmetic.Add(total, old(SampleLoss(Fixed(), Model(), sample))), counted + 1)
    {
      hide Step, SampleLoss, Observed;
      newTotal, newCounted := total, counted;
      var observed := CountObserved(sample.mask);
      if observed > 0 {
        var loss := TrainStepMasked(sample);
        newTotal, newCounted := arithmetic.Add(total, loss), counted + 1;
      } else {
        UnobservedStep(Fixed(), Model(), sample);
      }
    }

    /** Trains on the samples one after the other, skipping those with nothing observed. */
    method TrainBatchMasked(batch: seq<Sample>) returns (loss: real)
      requires Valid() && AllValid(batch)
      modifies this, Weights()
      ensures Valid() && Fixed() == old(Fixed())
      ensures Model() == old(Run(Fixed(), Model(), batch))
      ensures var (total, counted) := old(RunLoss(Fixed(), Model(), batch));
        loss == if counted == 0 then 0.0 else arithmetic.Div(total, counted as real)
    {
      hide Step, SampleLoss, Run, RunLoss, Observed;
      ghost var u, s := Fixed(), Model();
      var total, counted := 0.0, 0;
      EmptyRun(u, s);
      for k := 0 to |batch|
        invariant Valid() && Fixed() == u
        invariant Model() == Run(u, s, batch[..k]) && RunLoss(u, s, batch[..k]) == (total, counted)
      {
        LongerRun(u, s, batch, k);
        total, counted := TrainIfObserved(batch[k], total, counted);
      }
      assert batch[..|batch|] == batch;
      loss := if counted == 0 then 0.0 else arithmetic.Div(total, counted as real);
    }
  }

  lemma EmptyRun(u: Setup, s: State)
    requires u.Valid() && s.Valid()
    ensures Run(u, s, []) == s && RunLoss(u, s, []) == (0.0, 0)
  {
  }

  lemma LongerRun(u: Setup, s: State, batch: seq<Sample>, k: nat)
    requires u.Valid() && s.Valid() && AllValid(batch) && k < |batch|
    ensures Run(u, s, batch[..k + 1]) == Step(u, Run(u, s, batch[..k]), batch[k])
    ensures var (total, counted) := RunLoss(u, s, batch[..k]);
      RunLoss(u, s, batch[..k + 1])
      == if Observed(batch[k].mask) == 0 then (total, counted)
         else (u.a.Add(total, SampleLoss(u, Run(u, s, batch[..k]), batch[k])), counted + 1)
  {
    hide Step, SampleLoss, Observed;
    assert batch[..k + 1][..k] == batch[..k];
  }

  lemma UnobservedStep(u: Setup, s: State, sample: Sample)
    requires u.Valid() && s.Valid() && sample.Valid() && Observed(sample.mask) == 0
    ensures Step(u, s, sample) == s
  {
  }
}

/** Inference with ternary weights; what is proved holds for any addition and multiplication whatever. */
module CostModel {
  import opened RealFacts
  import opened Dimensions
  import opened FloatArithmetic
  import opened PackedTernary
  import Quantize

  // ---------- matrices and their row-major flattening ----------

  function Flatten(w: seq<seq<real>>): seq<real> {
    if w == [] then [] else w[0] + Flatten(w[1..])
  }

  function At(rows: nat, cols: nat, r: nat, c: nat): (i: nat)
    requires r < rows && c < cols
    ensures i < rows * cols
  {
    RowEndsInside(rows, cols, r);
    r * cols + c
  }

  lemma {:induction false} FlattenLength(w: seq<seq<real>>, rows: nat, cols: nat)
    requires IsMatrix(w, rows, cols)
    ensures |Flatten(w)| == rows * cols
  {
    if w != [] {
      FlattenLength(w[1..], rows - 1, cols);
      assert rows * cols == cols + (rows - 1) * cols;
    }
  }

  /** Cell `[r][c]` of a matrix is found at `r * cols + c` of its flattening. */
  lemma {:induction false} FlattenAt(w: seq<seq<real>>, rows: nat, cols: nat, r: nat, c: nat)
    requires IsMatrix(w, rows, cols) && r < rows && c < cols
    ensures |Flatten(w)| == rows * cols && Flatten(w)[At(rows, cols, r, c)] == w[r][c]
  {
    FlattenLength(w, rows, cols);
    if r > 0 {
      FlattenAt(w[1..], rows - 1, cols, r - 1, c);
      assert r * cols + c == cols + ((r - 1) * cols + c);
    }
  }

  // ---------- what a model computes ----------

  /** Everything that is kept when a model is saved: codes, scales, biases and normalisation. */
  datatype Parameters = Parameters(
    codes1: seq<int>, alpha1: real, codes2: seq<int>, alpha2: real,
    b1: seq<real>, b2: seq<real>, mean: seq<real>, invStd: seq<real>)
  {
    predicate Valid() {
      && |codes1| == F * H && |codes2| == H * O
      && |b1| == H && |b2| == O && |mean| == F && |invStd| == F
    }
  }

  function Weight1(a: Arithmetic, p: Parameters, j: nat, i: nat): real
    requires p.Valid() && j < F && i < H
  {
    a.Mul(p.codes1[At(F, H, j, i)] as real, p.alpha1)
  }

  function Weight2(a: Arithmetic, p: Parameters, i: nat, j: nat): real
    requires p.Valid() && i < H && j < O
  {
    a.Mul(p.codes2[At(H, O, i, j)] as real, p.alpha2)
  }

  function Normalized(a: Arithmetic, p: Parameters, features: seq<real>, j: nat): real
    requires p.Valid() && |features| == F && j < F
  {
    a.Mul(a.Sub(features[j], p.mean[j]), p.invStd[j])
  }

  /** Hidden neuron `i` after the first `n` inputs have been added to its bias. */
  function HiddenSum(a: Arithmetic, p: Parameters, features: seq<real>, i: nat, n: nat): real
    requires p.Valid() && |features| == F && i < H && n <= F
  {
    if n == 0 then p.b1[i]
    else
      a.Add(HiddenSum(a, p, features, i, n - 1),
            a.Mul(Weight1(a, p, n - 1, i), Normalized(a, p, features, n - 1)))
  }

  function Hidden(a: Arithmetic, p: Parameters, features: seq<real>, i: nat): real
    requires p.Valid() && |features| == F && i < H
  {
    Max(HiddenSum(a, p, features, i, F), 0.0)
  }

  /** Output `j` after the first `n` hidden neurons have been added to its bias. */
  function OutputSum(a: Arithmetic, p: Parameters, features: seq<real>, j: nat, n: nat): real
    requires p.Valid() && |features| == F && j < O && n <= H
  {
    if n == 0 then p.b2[j]
    else
      a.Add(OutputSum(a, p, features, j, n - 1),
            a.Mul(Weight2(a, p, n - 1, j), Hidden(a, p, features, n - 1)))
  }

  function Prediction(a: Arithmetic, p: Parameters, features: seq<real>, j: nat): real
    requires p.Valid() && |features| == F && j < O
  {
    a.softplus(OutputSum(a, p, features, j, H))
  }

  lemma HiddenSumSteps(a: Arithmetic, p: Parameters, features: seq<real>, i: nat, n: nat)
    requires p.Valid() && |features| == F && i < H && n < F
    ensures HiddenSum(a, p, features, i, 0) == p.b1[i]
    ensures HiddenSum(a, p, features, i, n + 1)
         == a.Add(HiddenSum(a, p, features, i, n), a.Mul(Weight1(a, p, n, i), Normalized(a, p, features, n)))
  {
  }

  lemma OutputSumSteps(a: Arithmetic, p: Parameters, features: seq<real>, j: nat, n: nat)
    requires p.Valid() && |features| == F && j < O && n < H
    ensures OutputSum(a, p, features, j, 0) == p.b2[j]
    ensures OutputSum(a, p, features, j, n + 1)
         == a.Add(OutputSum(a, p, features, j, n), a.Mul(Weight2(a, p, n, j), Hidden(a, p, features, n)))
  {
  }

  // ---------- the model object ----------

  /** The codes a packed list holds. */
  ghost function Codes(packed: Packed): (q: seq<int>)
    requires packed.Valid()
    reads packed.data
    ensures |q| == packed.len
    ensures forall k :: 0 <= k < packed.len ==> q[k] == packed.Get(k)
  {
    seq(packed.len, k requires 0 <= k < packed.len && packed.Valid() reads packed.data => packed.Get(k))
  }

  /** Weights multiplied out by their scale, row by row. */
  method Unpack(a: Arithmetic, packed: Packed, alpha: real, rows: nat, cols: nat) returns (arr: array2<real>)
    requires packed.Valid() && packed.len == rows * cols
    ensures fresh(arr) && arr.Length0 == rows && arr.Length1 == cols
    ensures forall r, c :: 0 <= r < rows && 0 <= c < cols ==>
      arr[r, c] == a.Mul(Codes(packed)[At(rows, cols, r, c)] as real, alpha)
  {
    arr := new real[rows, cols]((r, c) => 0.0);
    for r := 0 to rows
      invariant forall x, y :: 0 <= x < r && 0 <= y < cols ==>
        arr[x, y] == a.Mul(Codes(packed)[At(rows, cols, x, y)] as real, alpha)
    {
      for c := 0 to cols
        invariant forall x, y :: 0 <= x < r && 0 <= y < cols ==>
          arr[x, y] == a.Mul(Codes(packed)[At(rows, cols, x, y)] as real, alpha)
        invariant forall y :: 0 <= y < c ==>
          arr[r, y] == a.Mul(Codes(packed)[At(rows, cols, r, y)] as real, alpha)
      {
        arr[r, c] := a.Mul(packed.Get(At(rows, cols, r, c)) as real, alpha);
      }
    }
  }

  class BitNetCostModel {
    const arithmetic: Arithmetic
    const w1Packed: Packed
    const w2Packed: Packed
    const alpha1: real
    const alpha2: real
    const b1: seq<real>
    const b2: seq<real>
    const featureMean: seq<real>
    const featureInvStd: seq<real>
    var w1Fast: array2<real>
    var w2Fast: array2<real>

    /** The saved part is complete. */
    ghost predicate Stored()
      reads w1Packed.data, w2Packed.data
    {
      && w1Packed.Valid() && w2Packed.Valid() && w1Packed.len == F * H && w2Packed.len == H * O
      && |b1| == H && |b2| == O && |featureMean| == F && |featureInvStd| == F
    }

    ghost function Model(): (p: Parameters)
      requires Stored()
      reads w1Packed.data, w2Packed.data
      ensures p.Valid()
    {
      Parameters(Codes(w1Packed), alpha1, Codes(w2Packed), alpha2, b1, b2, featureMean, featureInvStd)
    }

    /** The fast weights are what the saved part stands for. */
    ghost predicate Valid()
      reads this, w1Packed.data, w2Packed.data, w1Fast, w2Fast
    {
      && Stored()
      && w1Fast.Length0 == F && w1Fast.Length1 == H && w2Fast.Length0 == H && w2Fast.Length1 == O
      && (forall j, i :: 0 <= j < F && 0 <= i < H ==> w1Fast[j, i] == Weight1(arithmetic, Model(), j, i))
      && (forall i, j :: 0 <= i < H && 0 <= j < O ==> w2Fast[i, j] == Weight2(arithmetic, Model(), i, j))
    }

    constructor FromWeights(a: Arithmetic, w1: seq<seq<real>>, bias1: seq<real>, w2: seq<seq<real>>, bias2: seq<real>,
                            mean: seq<real>, invStd: seq<real>)
      requires IsMatrix(w1, F, H) && |bias1| == H && IsMatrix(w2, H, O) && |bias2| == O
      requires |mean| == F && |invStd| == F
      ensures Valid() && arithmetic == a
      ensures b1 == bias1 && b2 == bias2 && featureMean == mean && featureInvStd == invStd
      ensures alpha1 == Quantize.Scale(Flatten(w1)) && alpha2 == Quantize.Scale(Flatten(w2))
      ensures forall r, c :: 0 <= r < F && 0 <= c < H ==>
        w1Fast[r, c] == a.Mul(Quantize.RoundClip(w1[r][c] / alpha1) as real, alpha1)
      ensures forall r, c :: 0 <= r < H && 0 <= c < O ==>
        w2Fast[r, c] == a.Mul(Quantize.RoundClip(w2[r][c] / alpha2) as real, alpha2)
    {
      FlattenLength(w1, F, H);
      FlattenLength(w2, H, O);
      var p1, s1 := Quantize.AbsmeanTernaryPack(Flatten(w1), F * H);
      var p2, s2 := Quantize.AbsmeanTernaryPack(Flatten(w2), H * O);
      var fast1 := Unpack(a, p1, s1, F, H);
      var fast2 := Unpack(a, p2, s2, H, O);
      arithmetic, w1Packed, w2Packed, alpha1, alpha2 := a, p1, p2, s1, s2;
      b1, b2, featureMean, featureInvStd := bias1, bias2, mean, invStd;
      w1Fast, w2Fast := fast1, fast2;
      new;
      forall r, c | 0 <= r < F && 0 <= c < H
        ensures w1Fast[r, c] == a.Mul(Quantize.RoundClip(w1[r][c] / alpha1) as real, alpha1)
      {
        FlattenAt(w1, F, H, r, c);
      }
      forall r, c | 0 <= r < H && 0 <= c < O
        ensures w2Fast[r, c] == a.Mul(Quantize.RoundClip(w2[r][c] / alpha2) as real, alpha2)
      {
        FlattenAt(w2, H, O, r, c);
      }
    }

    /** After loading only the saved part is there; this brings back the fast weights it stands for. */
    method RebuildFastWeights()
      requires Stored()
      modifies this
      ensures Valid() && fresh(w1Fast) && fresh(w2Fast)
      ensures Model() == old(Model())
    {
      w1Fast := Unpack(arithmetic, w1Packed, alpha1, F, H);
      w2Fast := Unpack(arithmetic, w2Packed, alpha2, H, O);
    }

    /** One feature's part of every hidden sum. */
    method AddFeature(features: seq<real>, j: nat, x: real, h: array<real>)
      requires Valid() && |features| == F && j < F && h.Length == H
      requires x == Normalized(arithmetic, Model(), features, j)
      requires forall i :: 0 <= i < H ==> h[i] == HiddenSum(arithmetic, Model(), features, i, j)
      modifies h
      ensures forall i :: 0 <= i < H ==> h[i] == HiddenSum(arithmetic, Model(), features, i, j + 1)
    {
      hide Weight1, Weight2, HiddenSum, Normalized;
      ghost var a, p := arithmetic, Model();
      for i := 0 to H
        modifies h
        invariant forall k :: 0 <= k < i ==> h[k] == HiddenSum(a, p, features, k, j + 1)
        invariant forall k :: i <= k < H ==> h[k] == HiddenSum(a, p, features, k, j)
      {
        HiddenSumSteps(a, p, features, i, j);
        h[i] := arithmetic.Add(h[i], arithmetic.Mul(w1Fast[j, i], x));
      }
    }

    method HiddenLayer(features: seq<real>) returns (h: array<real>)
      requires Valid() && |features| == F
      ensures fresh(h) && h.Length == H
      ensures forall i :: 0 <= i < H ==> h[i] == Hidden(arithmetic, Model(), features, i)
    {
      hide Weight1, Weight2, HiddenSum;
      ghost var a, p := arithmetic, Model();
      h := new real[H](i requires 0 <= i < H => b1[i]);
      forall i | 0 <= i < H ensures h[i] == HiddenSum(a, p, features, i, 0) {
        HiddenSumSteps(a, p, features, i, 0);
      }
      for j := 0 to F
        modifies h
        invariant forall i :: 0 <= i < H ==> h[i] == HiddenSum(a, p, features, i, j)
      {
        var x := arithmetic.Mul(arithmetic.Sub(features[j], featureMean[j]), featureInvStd[j]);
        AddFeature(features, j, x, h);
      }
      for i := 0 to H
        invariant forall k :: 0 <= k < i ==> h[k] == Hidden(a, p, features, k)
        invariant forall k :: i <= k < H ==> h[k] == HiddenSum(a, p, features, k, F)
      {
        h[i] := Max(h[i], 0.0);
      }
    }

    /** One output, down the first column of the weights. */
    method PredictCpuMs(features: seq<real>) returns (r: real)
      requires Valid() && |features| == F
      ensures r == Prediction(arithmetic, Model(), features, 0)
    {
      hide Weight1, Weight2, Hidden;
      ghost var a, p := arithmetic, Model();
      var h := HiddenLayer(features);
      var out0 := b2[0];
      for i := 0 to H
        invariant out0 == OutputSum(a, p, features, 0, i)
      {
        out0 := arithmetic.Add(out0, arithmetic.Mul(w2Fast[i, 0], h[i]));
      }
      r := arithmetic.softplus(out0);
    }

    /** One neuron's part of every output sum. */
    method AddNeuron(features: seq<real>, i: nat, x: real, out: array<real>)
      requires Valid() && |features| == F && i < H && out.Length == O
      requires x == Hidden(arithmetic, Model(), features, i)
      requires forall j :: 0 <= j < O ==> out[j] == OutputSum(arithmetic, Model(), features, j, i)
      modifies out
      ensures forall j :: 0 <= j < O ==> out[j] == OutputSum(arithmetic, Model(), features, j, i + 1)
    {
      hide Weight1, Weight2, Hidden, OutputSum;
      ghost var a, p := arithmetic, Model();
      for j := 0 to O
        modifies out
        invariant forall k :: 0 <= k < j ==> out[k] == OutputSum(a, p, features, k, i + 1)
        invariant forall k :: j <= k < O ==> out[k] == OutputSum(a, p, features, k, i)
      {
        OutputSumSteps(a, p, features, j, i);
        out[j] := arithmetic.Add(out[j], arithmetic.Mul(w2Fast[i, j], x));
      }
    }

    /** All outputs, row by row; the first is exactly what `PredictCpuMs` returns. */
    method PredictAll(features: seq<real>) returns (out: array<real>)
      requires Valid() && |features| == F
      ensures fresh(out) && out.Length == O
      ensures forall j :: 0 <= j < O ==> out[j] == Prediction(arithmetic, Model(), features, j)
    {
      hide Weight1, Weight2, Hidden, OutputSum;
      ghost var a, p := arithmetic, Model();
      var h := HiddenLayer(features);
      out := new real[O](j requires 0 <= j < O => b2[j]);
      forall j | 0 <= j < O ensures out[j] == OutputSum(a, p, features, j, 0) {
        OutputSumSteps(a, p, features, j, 0);
      }
      for i := 0 to H
        modifies out
        invariant forall j :: 0 <= j < O ==> out[j] == OutputSum(a, p, features, j, i)
      {
        AddNeuron(features, i, h[i], out);
      }
      for j := 0 to O
        invariant forall k :: 0 <= k < j ==> out[k] == Prediction(a, p, features, k)
        invariant forall k :: j <= k < O ==> out[k] == OutputSum(a, p, features, k, H)
      {
        out[j] := arithmetic.softplus(out[j]);
      }
    }
  }
}

/** In exact arithmetic the backward pass computes gradients: what it promises about finite changes of weights. */
module Gradients {
  import opened RealFacts
  import opened Dimensions
  import opened FloatArithmetic
  import opened TrainingSpec

  type Vector = seq<real>

  /** The sum of the first `n` products. */
  function Dot(a: Vector, b: Vector, n: nat): real
    requires n <= |a| && n <= |b|
  {
    if n == 0 then 0.0 else Dot(a, b, n - 1) + Times(a[n - 1], b[n - 1])
  }

  function Minus(a: Vector, b: Vector): (r: Vector)
    requires |a| == |b|
    ensures |r| == |a| && forall i :: 0 <= i < |a| ==> r[i] == a[i] - b[i]
  {
    seq(|a|, i requires 0 <= i < |a| => a[i] - b[i])
  }

  // ---------- sums of products ----------

  lemma Distribute(x: real, y: real, z: real)
    ensures Times(x, y + z) == Times(x, y) + Times(x, z)
    ensures Times(x, y - z) == Times(x, y) - Times(x, z)
    ensures Times(x, y) == Times(y, x)
  {
  }

  lemma TimesAssociates(x: real, y: real, z: real)
    ensures Times(x, Times(y, z)) == Times(Times(x, y), z)
    ensures Times(x, Times(y, z)) == Times(y, Times(x, z))
  {
  }

  lemma {:induction false} DotCommutes(a: Vector, b: Vector, n: nat)
    requires n <= |a| && n <= |b|
    ensures Dot(a, b, n) == Dot(b, a, n)
  {
    hide Times;
    if n > 0 {
      DotCommutes(a, b, n - 1);
      Distribute(a[n - 1], b[n - 1], 0.0);
    }
  }

  lemma {:induction false} DotOfSum(d: Vector, r: Vector, a: Vector, b: Vector, n: nat)
    requires n <= |d| && n <= |r| && n <= |a| && n <= |b|
    requires forall i :: 0 <= i < n ==> r[i] == a[i] + b[i]
    ensures Dot(d, r, n) == Dot(d, a, n) + Dot(d, b, n)
  {
    hide Times;
    if n > 0 {
      DotOfSum(d, r, a, b, n - 1);
      Distribute(d[n - 1], a[n - 1], b[n - 1]);
    }
  }

  lemma {:induction false} DotOfMultiple(d: Vector, r: Vector, b: Vector, c: real, n: nat)
    requires n <= |d| && n <= |r| && n <= |b|
    requires forall i :: 0 <= i < n ==> r[i] == Times(b[i], c)
    ensures Dot(d, r, n) == Times(c, Dot(d, b, n))
  {
    hide Times;
    Distribute(c, 0.0, 0.0);
    if n > 0 {
      DotOfMultiple(d, r, b, c, n - 1);
      Distribute(c, Dot(d, b, n - 1), Times(d[n - 1], b[n - 1]));
      Distribute(b[n - 1], c, 0.0);
      TimesAssociates(d[n - 1], c, b[n - 1]);
    }
  }

  // ---------- matrices given by their rows ----------

  /** Column `j` against `v`, over the first `n` rows. */
  function ColumnDot(m: seq<Vector>, v: Vector, cols: nat, j: nat, n: nat): real
    requires IsMatrix(m, |v|, cols) && j < cols && n <= |v|
  {
    if n == 0 then 0.0 else ColumnDot(m, v, cols, j, n - 1) + Times(m[n - 1][j], v[n - 1])
  }

  function ColumnDots(m: seq<Vector>, v: Vector, cols: nat, n: nat): (r: Vector)
    requires IsMatrix(m, |v|, cols) && n <= |v|
    ensures |r| == cols && forall j :: 0 <= j < cols ==> r[j] == ColumnDot(m, v, cols, j, n)
  {
    seq(cols, j requires 0 <= j < cols => ColumnDot(m, v, cols, j, n))
  }

  /** Each of the first `n` rows against `d`, weighted by `v`. */
  function RowSum(m: seq<Vector>, v: Vector, d: Vector, n: nat): real
    requires IsMatrix(m, |v|, |d|) && n <= |v|
  {
    if n == 0 then 0.0 else RowSum(m, v, d, n - 1) + Times(v[n - 1], Dot(m[n - 1], d, |d|))
  }

  /** Exchange of the double sum: the columns weighted by `d` or the rows weighted by `v`. */
  lemma {:induction false} Exchange(m: seq<Vector>, v: Vector, d: Vector, n: nat)
    requires IsMatrix(m, |v|, |d|) && n <= |v|
    ensures Dot(d, ColumnDots(m, v, |d|, n), |d|) == RowSum(m, v, d, n)
  {
    hide Times, Dot;
    var cols := |d|;
    if n == 0 {
      DotOfZeros(d, ColumnDots(m, v, cols, 0), cols);
    } else {
      Exchange(m, v, d, n - 1);
      var last := seq(cols, j requires 0 <= j < cols => Times(m[n - 1][j], v[n - 1]));
      DotOfSum(d, ColumnDots(m, v, cols, n), ColumnDots(m, v, cols, n - 1), last, cols);
      DotOfMultiple(d, last, m[n - 1], v[n - 1], cols);
      DotCommutes(d, m[n - 1], cols);
    }
  }

  lemma {:induction false} DotOfZeros(d: Vector, z: Vector, n: nat)
    requires n <= |d| && n <= |z| && forall i :: 0 <= i < n ==> z[i] == 0.0
    ensures Dot(d, z, n) == 0.0
  {
    if n > 0 {
      DotOfZeros(d, z, n - 1);
    }
  }

  lemma {:induction false} ColumnOfDifference(m: seq<Vector>, v: Vector, v': Vector, cols: nat, j: nat, n: nat)
    requires |v'| == |v| && IsMatrix(m, |v|, cols) && j < cols && n <= |v|
    ensures ColumnDot(m, Minus(v', v), cols, j, n) == ColumnDot(m, v', cols, j, n) - ColumnDot(m, v, cols, j, n)
  {
    hide Times;
    if n > 0 {
      ColumnOfDifference(m, v, v', cols, j, n - 1);
      Distribute(m[n - 1][j], v'[n - 1], v[n - 1]);
    }
  }

  lemma {:induction false} ColumnOfChange(
    m: seq<Vector>, m': seq<Vector>, delta: seq<Vector>, v: Vector, cols: nat, j: nat, n: nat)
    requires IsMatrix(m, |v|, cols) && IsMatrix(m', |v|, cols) && IsMatrix(delta, |v|, cols) && j < cols && n <= |v|
    requires forall i :: 0 <= i < |v| ==> delta[i][j] == m'[i][j] - m[i][j]
    ensures ColumnDot(delta, v, cols, j, n) == ColumnDot(m', v, cols, j, n) - ColumnDot(m, v, cols, j, n)
  {
    hide Times;
    if n > 0 {
      ColumnOfChange(m, m', delta, v, cols, j, n - 1);
      Distribute(v[n - 1], m'[n - 1][j], m[n - 1][j]);
      Distribute(m'[n - 1][j], v[n - 1], 0.0);
      Distribute(m[n - 1][j], v[n - 1], 0.0);
      Distribute(delta[n - 1][j], v[n - 1], 0.0);
    }
  }

  // ---------- a linear layer ----------

  function Pre(bias: Vector, m: seq<Vector>, v: Vector): (r: Vector)
    requires IsMatrix(m, |v|, |bias|)
    ensures |r| == |bias| && forall j :: 0 <= j < |r| ==> r[j] == bias[j] + ColumnDot(m, v, |bias|, j, |v|)
  {
    seq(|bias|, j requires 0 <= j < |bias| => bias[j] + ColumnDot(m, v, |bias|, j, |v|))
  }

  lemma InputChange(bias: Vector, m: seq<Vector>, v: Vector, v': Vector, d: Vector)
    requires |v'| == |v| && |bias| == |d| && IsMatrix(m, |v|, |d|)
    ensures Dot(d, Minus(Pre(bias, m, v'), Pre(bias, m, v)), |d|) == RowSum(m, Minus(v', v), d, |v|)
  {
    hide Times, Dot, ColumnDot, RowSum;
    forall j | 0 <= j < |d|
      ensures Minus(Pre(bias, m, v'), Pre(bias, m, v))[j] == ColumnDot(m, Minus(v', v), |d|, j, |v|)
    {
      ColumnOfDifference(m, v, v', |d|, j, |v|);
    }
    assert Minus(Pre(bias, m, v'), Pre(bias, m, v)) == ColumnDots(m, Minus(v', v), |d|, |v|);
    Exchange(m, Minus(v', v), d, |v|);
  }

  lemma WeightChange(bias: Vector, bias': Vector, m: seq<Vector>, m': seq<Vector>, delta: seq<Vector>,
                     v: Vector, d: Vector)
    requires |bias| == |bias'| == |d| && IsMatrix(m, |v|, |d|) && IsMatrix(m', |v|, |d|) && IsMatrix(delta, |v|, |d|)
    requires forall i, j :: 0 <= i < |v| && 0 <= j < |d| ==> delta[i][j] == m'[i][j] - m[i][j]
    ensures Dot(d, Minus(Pre(bias', m', v), Pre(bias, m, v)), |d|)
         == Dot(d, Minus(bias', bias), |d|) + RowSum(delta, v, d, |v|)
  {
    hide Times, Dot, ColumnDot, RowSum;
    var change := Minus(Pre(bias', m', v), Pre(bias, m, v));
    var columns := ColumnDots(delta, v, |d|, |v|);
    forall j | 0 <= j < |d| ensures change[j] == Minus(bias', bias)[j] + columns[j] {
      ColumnOfChange(m, m', delta, v, |d|, j, |v|);
    }
    DotOfSum(d, change, Minus(bias', bias), columns, |d|);
    Exchange(delta, v, d, |v|);
  }

  lemma {:induction false} RowSumIsDot(m: seq<Vector>, v: Vector, d: Vector, back: Vector, n: nat)
    requires IsMatrix(m, |v|, |d|) && |back| == |v| && n <= |v|
    requires forall i :: 0 <= i < |v| ==> back[i] == Dot(m[i], d, |d|)
    ensures RowSum(m, v, d, n) == Dot(back, v, n)
  {
    hide Times, Dot;
    DotStart(back, v);
    if n > 0 {
      RowSumIsDot(m, v, d, back, n - 1);
      DotStep(back, v, n - 1);
      Distribute(v[n - 1], back[n - 1], 0.0);
    }
  }

  lemma DotStart(a: Vector, b: Vector)
    ensures Dot(a, b, 0) == 0.0
  {
  }

  lemma DotStep(a: Vector, b: Vector, n: nat)
    requires n < |a| && n < |b|
    ensures Dot(a, b, n + 1) == Dot(a, b, n) + Times(a[n], b[n])
  {
  }

  // ---------- flattened matrices ----------

  lemma CellInside(rows: nat, cols: nat, i: nat, j: nat)
    requires i < rows && j < cols
    ensures i * cols + j < i * cols + cols <= rows * cols
  {
    RowEndsInside(rows, cols, i);
  }

  /** The rows of a matrix that is stored row by row. */
  function Rows(w: Vector, rows: nat, cols: nat): (m: seq<Vector>)
    requires |w| == rows * cols
    ensures IsMatrix(m, rows, cols)
    ensures forall i, j :: 0 <= i < rows && 0 <= j < cols ==>
      (CellInside(rows, cols, i, j); m[i][j] == w[i * cols + j])
  {
    seq(rows, i requires 0 <= i < rows =>
      seq(cols, j requires 0 <= j < cols => (CellInside(rows, cols, i, j); w[i * cols + j])))
  }

  lemma DivMod(i: nat, cols: nat, k: nat)
    requires k < cols
    ensures (i * cols + k) / cols == i && (i * cols + k) % cols == k
  {
    var x := i * cols + k;
    SameQuotient(x / cols, x % cols, i, k, cols);
  }

  lemma SameQuotient(q: int, r: int, i: int, k: int, cols: int)
    requires 0 <= r < cols && 0 <= k < cols && q * cols + r == i * cols + k
    ensures q == i && r == k
  {
    AtLeastOneRow(q - i, cols);
    AtLeastOneRow(i - q, cols);
    assert (q - i) * cols == q * cols - i * cols;
    assert (i - q) * cols == i * cols - q * cols;
  }

  lemma AtLeastOneRow(n: int, cols: int)
    requires cols >= 0
    ensures n >= 1 ==> n * cols >= cols
  {
    if n >= 1 {
      assert (n - 1) * cols >= 0;
    }
  }

  lemma {:induction false} OuterRow(u: Setup, v: Vector, d: Vector, w: Vector, i: nat, k: nat)
    requires u.a == Exact(u.a.sqrt, u.a.softplus, u.a.sigmoid)
    requires |d| > 0 && |w| == |v| * |d| && i < |v| && k <= |d|
    ensures i * |d| + k <= |v| * |d|
    ensures Dot(Outer(u, v, d), w, i * |d| + k)
         == Dot(Outer(u, v, d), w, i * |d|) + Times(v[i], Dot(Rows(w, |v|, |d|)[i], d, k))
  {
    hide Times, Dot, Outer, Exact, Rows;
    var m := Rows(w, |v|, |d|);
    CellInside(|v|, |d|, i, 0);
    DotStart(m[i], d);
    TimesZeroIsZero(v[i]);
    if k > 0 {
      var c := i * |d| + (k - 1);
      CellInside(|v|, |d|, i, k - 1);
      OuterRow(u, v, d, w, i, k - 1);
      DotStep(Outer(u, v, d), w, c);
      DotStep(m[i], d, k - 1);
      OuterCell(u, v, d, i, k - 1);
      Distribute(v[i], Dot(m[i], d, k - 1), Times(m[i][k - 1], d[k - 1]));
      TimesAssociates(v[i], d[k - 1], w[c]);
      Distribute(d[k - 1], w[c], 0.0);
    }
  }

  lemma TimesZeroIsZero(x: real)
    ensures Times(x, 0.0) == 0.0
  {
  }

  lemma OuterCell(u: Setup, v: Vector, d: Vector, i: nat, j: nat)
    requires u.a == Exact(u.a.sqrt, u.a.softplus, u.a.sigmoid) && i < |v| && j < |d|
    ensures i * |d| + j < |v| * |d|
    ensures Outer(u, v, d)[i * |d| + j] == Times(v[i], d[j])
  {
    CellInside(|v|, |d|, i, j);
    DivMod(i, |d|, j);
  }

  /** A flattened change of weights against the outer product, summed row by row. */
  lemma {:induction false} OuterIsRowSum(u: Setup, v: Vector, d: Vector, w: Vector, n: nat)
    requires u.a == Exact(u.a.sqrt, u.a.softplus, u.a.sigmoid)
    requires |d| > 0 && |w| == |v| * |d| && n <= |v|
    ensures n * |d| <= |v| * |d|
    ensures Dot(Outer(u, v, d), w, n * |d|) == RowSum(Rows(w, |v|, |d|), v, d, n)
  {
    hide Times, Dot, Outer, Exact, Rows;
    if n == 0 {
      DotStart(Outer(u, v, d), w);
    } else {
      CellInside(|v|, |d|, n - 1, 0);
      OuterIsRowSum(u, v, d, w, n - 1);
      OuterRow(u, v, d, w, n - 1, |d|);
      assert (n - 1) * |d| + |d| == n * |d|;
    }
  }

  // ---------- the trainer's layers ----------

  lemma {:induction false} OutputIsLinear(u: Setup, s: State, h: Vector, j: nat, n: nat)
    requires u.a == Exact(u.a.sqrt, u.a.softplus, u.a.sigmoid)
    requires s.Valid() && |h| == H && j < O && n <= H
    ensures OutputSum(u, s, h, j, n) == s.b2.w[j] + ColumnDot(Rows(s.w2.w, H, O), h, O, j, n)
  {
    if n > 0 {
      OutputIsLinear(u, s, h, j, n - 1);
    }
  }

  lemma {:induction false} HiddenIsLinear(u: Setup, s: State, x: Vector, i: nat, n: nat)
    requires u.a == Exact(u.a.sqrt, u.a.softplus, u.a.sigmoid)
    requires s.Valid() && |x| == F && i < H && n <= F
    ensures HiddenSum(u, s, x, i, n) == s.b1.w[i] + ColumnDot(Rows(s.w1.w, F, H), x, H, i, n)
  {
    if n > 0 {
      HiddenIsLinear(u, s, x, i, n - 1);
    }
  }

  lemma {:induction false} BackIsRow(u: Setup, s: State, d: Vector, i: nat, n: nat)
    requires u.a == Exact(u.a.sqrt, u.a.softplus, u.a.sigmoid)
    requires s.Valid() && |d| == O && i < H && n <= O
    ensures BackSum(u, s, d, i, n) == Dot(Rows(s.w2.w, H, O)[i], d, n)
  {
    if n > 0 {
      BackIsRow(u, s, d, i, n - 1);
    }
  }

  lemma OutputsAreLayer(u: Setup, s: State, h: Vector)
    requires u.a == Exact(u.a.sqrt, u.a.softplus, u.a.sigmoid) && s.Valid() && |h| == H
    ensures OutputPre(u, s, h) == Pre(s.b2.w, Rows(s.w2.w, H, O), h)
  {
    hide OutputSum, ColumnDot, Rows, Exact;
    forall j | 0 <= j < O ensures OutputPre(u, s, h)[j] == Pre(s.b2.w, Rows(s.w2.w, H, O), h)[j] {
      OutputIsLinear(u, s, h, j, H);
    }
  }

  lemma HiddenAreLayer(u: Setup, s: State, x: Vector)
    requires u.a == Exact(u.a.sqrt, u.a.softplus, u.a.sigmoid) && s.Valid() && |x| == F
    ensures HiddenPre(u, s, x) == Pre(s.b1.w, Rows(s.w1.w, F, H), x)
  {
    hide HiddenSum, ColumnDot, Rows, Exact;
    forall i | 0 <= i < H ensures HiddenPre(u, s, x)[i] == Pre(s.b1.w, Rows(s.w1.w, F, H), x)[i] {
      HiddenIsLinear(u, s, x, i, F);
    }
  }

  lemma RowsOfChange(w: Vector, w': Vector, rows: nat, cols: nat)
    requires |w| == |w'| == rows * cols
    ensures forall i, j :: 0 <= i < rows && 0 <= j < cols ==>
      Rows(Minus(w', w), rows, cols)[i][j] == Rows(w', rows, cols)[i][j] - Rows(w, rows, cols)[i][j]
  {
    forall i, j | 0 <= i < rows && 0 <= j < cols
      ensures Rows(Minus(w', w), rows, cols)[i][j] == Rows(w', rows, cols)[i][j] - Rows(w, rows, cols)[i][j]
    {
      CellInside(rows, cols, i, j);
    }
  }

  /** The change of a layer's outputs, weighted by `d`, is the change of its weights against their gradients. */
  lemma LayerGradient(u: Setup, w: Vector, w': Vector, bias: Vector, bias': Vector, v: Vector, d: Vector)
    requires u.a == Exact(u.a.sqrt, u.a.softplus, u.a.sigmoid)
    requires |d| > 0 && |bias| == |bias'| == |d| && |w| == |w'| == |v| * |d|
    ensures Dot(d, Minus(Pre(bias', Rows(w', |v|, |d|), v), Pre(bias, Rows(w, |v|, |d|), v)), |d|)
         == Dot(Outer(u, v, d), Minus(w', w), |w|) + Dot(d, Minus(bias', bias), |d|)
  {
    hide Times, Dot, Outer, Exact, Rows, Pre, RowSum;
    RowsOfChange(w, w', |v|, |d|);
    WeightChange(bias, bias', Rows(w, |v|, |d|), Rows(w', |v|, |d|), Rows(Minus(w', w), |v|, |d|), v, d);
    OuterIsRowSum(u, v, d, Minus(w', w), |v|);
  }

  /**
   * Changing the second layer changes the linear outputs, weighted by any `dOut`, by exactly the change of
   * its weights and biases against the gradients that the backward pass computes from `dOut`.
   */
  lemma OuterLayerGradient(u: Setup, s: State, s': State, features: Vector, dOut: Vector)
    requires u.a == Exact(u.a.sqrt, u.a.softplus, u.a.sigmoid)
    requires u.Valid() && s.Valid() && s'.Valid() && |features| == F && |dOut| == O
    requires s'.w1 == s.w1 && s'.b1 == s.b1
    ensures var g := Backward(u, s, features, dOut);
      Dot(dOut, Minus(Forward(u, s', features), Forward(u, s, features)), O)
      == Dot(g.w2, Minus(s'.w2.w, s.w2.w), H * O) + Dot(g.b2, Minus(s'.b2.w, s.b2.w), O)
  {
    hide Dot, Outer, Exact, Rows, Pre, Normalize, OutputPre;
    var x := Normalize(u, features);
    SameHidden(u, s, s', x);
    var h := Relu(HiddenPre(u, s, x));
    OutputsAreLayer(u, s, h);
    OutputsAreLayer(u, s', h);
    LayerGradient(u, s.w2.w, s'.w2.w, s.b2.w, s'.b2.w, h, dOut);
  }

  lemma SameHidden(u: Setup, s: State, s': State, x: Vector)
    requires s.Valid() && s'.Valid() && |x| == F && s'.w1 == s.w1 && s'.b1 == s.b1
    ensures HiddenPre(u, s', x) == HiddenPre(u, s, x)
  {
    forall i | 0 <= i < H ensures HiddenSum(u, s', x, i, F) == HiddenSum(u, s, x, i, F) {
      SameHiddenSum(u, s, s', x, i, F);
    }
  }

  lemma {:induction false} SameHiddenSum(u: Setup, s: State, s': State, x: Vector, i: nat, n: nat)
    requires s.Valid() && s'.Valid() && |x| == F && i < H && n <= F && s'.w1 == s.w1 && s'.b1 == s.b1
    ensures HiddenSum(u, s', x, i, n) == HiddenSum(u, s, x, i, n)
  {
    if n > 0 {
      SameHiddenSum(u, s, s', x, i, n - 1);
    }
  }

  // ---------- through the rectifier to the first layer ----------

  function BackVector(u: Setup, s: State, d: Vector): (b: Vector)
    requires s.Valid() && |d| == O
    ensures |b| == H && forall i :: 0 <= i < H ==> b[i] == BackSum(u, s, d, i, O)
  {
    seq(H, i requires 0 <= i < H => BackSum(u, s, d, i, O))
  }

  /** No hidden neuron is switched on or off between two inputs of the rectifier. */
  predicate SamePiece(pre: Vector, pre': Vector) {
    |pre| == |pre'| && forall i :: 0 <= i < |pre| ==> (pre[i] > 0.0 <==> pre'[i] > 0.0)
  }

  lemma ThroughRectifier(u: Setup, s: State, pre: Vector, pre': Vector, d: Vector)
    requires s.Valid() && |pre| == H && |d| == O && SamePiece(pre, pre')
    ensures Dot(BackVector(u, s, d), Minus(Relu(pre'), Relu(pre)), H)
         == Dot(HiddenGradient(u, s, pre, d), Minus(pre', pre), H)
  {
    hide Dot, BackSum;
    SameProducts(BackVector(u, s, d), Minus(Relu(pre'), Relu(pre)), HiddenGradient(u, s, pre, d), Minus(pre', pre), H);
  }

  lemma {:induction false} SameProducts(a: Vector, b: Vector, c: Vector, d: Vector, n: nat)
    requires n <= |a| && n <= |b| && n <= |c| && n <= |d|
    requires forall i :: 0 <= i < n ==> (a[i] == c[i] && b[i] == d[i]) || (b[i] == 0.0 && c[i] == 0.0)
    ensures Dot(a, b, n) == Dot(c, d, n)
  {
    hide Times;
    if n > 0 {
      SameProducts(a, b, c, d, n - 1);
      TimesZeroIsZero(a[n - 1]);
      TimesZeroIsZero(d[n - 1]);
      Distribute(c[n - 1], d[n - 1], 0.0);
    }
  }

  lemma OutputsFollowHidden(u: Setup, s: State, h: Vector, h': Vector, d: Vector)
    requires u.a == Exact(u.a.sqrt, u.a.softplus, u.a.sigmoid)
    requires s.Valid() && |h| == |h'| == H && |d| == O
    ensures Dot(d, Minus(OutputPre(u, s, h'), OutputPre(u, s, h)), O) == Dot(BackVector(u, s, d), Minus(h', h), H)
  {
    hide Dot, Exact, Rows, Pre, RowSum, OutputPre;
    var m := Rows(s.w2.w, H, O);
    OutputsAreLayer(u, s, h);
    OutputsAreLayer(u, s, h');
    InputChange(s.b2.w, m, h, h', d);
    forall i | 0 <= i < H ensures BackVector(u, s, d)[i] == Dot(m[i], d, O) {
      BackIsRow(u, s, d, i, O);
    }
    RowSumIsDot(m, Minus(h', h), d, BackVector(u, s, d), H);
  }

  /**
   * Changing the first layer, without switching a hidden neuron on or off, changes the linear outputs,
   * weighted by any `dOut`, by exactly the change of its weights and biases against their gradients.
   */
  lemma InnerLayerGradient(u: Setup, s: State, s': State, features: Vector, dOut: Vector)
    requires u.a == Exact(u.a.sqrt, u.a.softplus, u.a.sigmoid)
    requires u.Valid() && s.Valid() && s'.Valid() && |features| == F && |dOut| == O
    requires s'.w2 == s.w2 && s'.b2 == s.b2
    requires SamePiece(HiddenPre(u, s, Normalize(u, features)), HiddenPre(u, s', Normalize(u, features)))
    ensures var g := Backward(u, s, features, dOut);
      Dot(dOut, Minus(Forward(u, s', features), Forward(u, s, features)), O)
      == Dot(g.w1, Minus(s'.w1.w, s.w1.w), F * H) + Dot(g.b1, Minus(s'.b1.w, s.b1.w), H)
  {
    hide Dot, Outer, Exact, Rows, Pre, Normalize, OutputPre, HiddenPre, HiddenGradient, BackVector, SamePiece, Relu;
    var x := Normalize(u, features);
    var p, p' := HiddenPre(u, s, x), HiddenPre(u, s', x);
    SameOutputs(u, s, s', Relu(p'));
    OutputsFollowHidden(u, s, Relu(p), Relu(p'), dOut);
    ThroughRectifier(u, s, p, p', dOut);
    HiddenAreLayer(u, s, x);
    HiddenAreLayer(u, s', x);
    LayerGradient(u, s.w1.w, s'.w1.w, s.b1.w, s'.b1.w, x, HiddenGradient(u, s, p, dOut));
  }

  lemma SameOutputs(u: Setup, s: State, s': State, h: Vector)
    requires s.Valid() && s'.Valid() && |h| == H && s'.w2 == s.w2 && s'.b2 == s.b2
    ensures OutputPre(u, s', h) == OutputPre(u, s, h)
  {
    forall j | 0 <= j < O ensures OutputSum(u, s', h, j, H) == OutputSum(u, s, h, j, H) {
      SameOutputSum(u, s, s', h, j, H);
    }
  }

  lemma {:induction false} SameOutputSum(u: Setup, s: State, s': State, h: Vector, j: nat, n: nat)
    requires s.Valid() && s'.Valid() && |h| == H && j < O && n <= H && s'.w2 == s.w2 && s'.b2 == s.b2
    ensures OutputSum(u, s', h, j, n) == OutputSum(u, s, h, j, n)
  {
    if n > 0 {
      SameOutputSum(u, s, s', h, j, n - 1);
    }
  }

  // ---------- the loss ----------

  /** The activated outputs. */
  function Activated(u: Setup, pre: Vector): (y: Vector)
    requires |pre| == O
    ensures |y| == O && forall j :: 0 <= j < O ==> y[j] == u.a.softplus(pre[j])
  {
    seq(O, j requires 0 <= j < O => u.a.softplus(pre[j]))
  }

  function LossGradient(u: Setup, pre: Vector, target: Vector, mask: seq<bool>): (g: Vector)
    requires |pre| == O && |target| == O && |mask| == O
    ensures |g| == O && forall j :: 0 <= j < O ==> g[j] == LossGradientAt(u, pre, target, mask, j)
  {
    seq(O, j requires 0 <= j < O => LossGradientAt(u, pre, target, mask, j))
  }

  /** The squared change of the observed outputs. */
  function ObservedSquares(delta: Vector, mask: seq<bool>, n: nat): (q: real)
    requires n <= |delta| && n <= |mask|
    ensures q >= 0.0
  {
    if n == 0 then 0.0
    else
      SquareNotNegative(delta[n - 1]);
      ObservedSquares(delta, mask, n - 1) + (if mask[n - 1] then Times(delta[n - 1], delta[n - 1]) else 0.0)
  }

  lemma SquareNotNegative(x: real)
    ensures Times(x, x) >= 0.0
  {
  }

  lemma OneOutput(diff: real, delta: real, count: real)
    requires count > 0.0
    ensures Times(diff + delta, diff + delta)
         == Times(diff, diff) + Times(count, Times(Times(2.0 / count, diff), delta)) + Times(delta, delta)
  {
    var c := 2.0 / count;
    assert c * count == 2.0;
    assert count * ((c * diff) * delta) == (c * count) * (diff * delta);
  }

  lemma LossGradientExact(u: Setup, pre: Vector, target: Vector, mask: seq<bool>, j: nat)
    requires u.a == Exact(u.a.sqrt, u.a.softplus, u.a.sigmoid)
    requires |pre| == O && |target| == O && |mask| == O && j < O && Observed(mask) > 0
    ensures LossGradientAt(u, pre, target, mask, j)
         == if mask[j] then Times(2.0 / Observed(mask) as real, Difference(u, pre, target, j)) else 0.0
    ensures Difference(u, pre, target, j) == u.a.softplus(pre[j]) - target[j]
  {
    hide Observed;
  }

  lemma LossSumExact(u: Setup, pre: Vector, target: Vector, mask: seq<bool>, n: nat)
    requires u.a == Exact(u.a.sqrt, u.a.softplus, u.a.sigmoid)
    requires |pre| == O && |target| == O && |mask| == O && n < O
    ensures LossSum(u, pre, target, mask, n + 1) == LossSum(u, pre, target, mask, n)
         + (if mask[n] then Times(Difference(u, pre, target, n), Difference(u, pre, target, n)) else 0.0)
  {
    hide Difference;
  }

  lemma {:induction false} LossSumExpansion(
    u: Setup, pre: Vector, pre': Vector, target: Vector, mask: seq<bool>, n: nat)
    requires u.a == Exact(u.a.sqrt, u.a.softplus, u.a.sigmoid)
    requires |pre| == |pre'| == O && |target| == O && |mask| == O && n <= O && Observed(mask) > 0
    ensures var delta := Minus(Activated(u, pre'), Activated(u, pre));
      LossSum(u, pre', target, mask, n)
      == LossSum(u, pre, target, mask, n)
       + Times(Observed(mask) as real, Dot(LossGradient(u, pre, target, mask), delta, n))
       + ObservedSquares(delta, mask, n)
  {
    hide Times, Observed, Exact, Difference, LossGradientAt, Dot;
    var delta := Minus(Activated(u, pre'), Activated(u, pre));
    var g, count := LossGradient(u, pre, target, mask), Observed(mask) as real;
    DotStart(g, delta);
    TimesZeroIsZero(count);
    if n > 0 {
      var j := n - 1;
      LossSumExpansion(u, pre, pre', target, mask, j);
      LossSumExact(u, pre, target, mask, j);
      LossSumExact(u, pre', target, mask, j);
      LossGradientExact(u, pre, target, mask, j);
      LossGradientExact(u, pre', target, mask, j);
      DotStep(g, delta, j);
      Distribute(count, Dot(g, delta, j), Times(g[j], delta[j]));
      OneOutput(Difference(u, pre, target, j), delta[j], count);
      TimesZeroIsZero(delta[j]);
      Distribute(0.0, delta[j], 0.0);
    }
  }

  /** The loss is the mean squared error of the observed outputs. */
  lemma LossIsMeanSquare(u: Setup, pre: Vector, target: Vector, mask: seq<bool>)
    requires u.a == Exact(u.a.sqrt, u.a.softplus, u.a.sigmoid)
    requires |pre| == O && |target| == O && |mask| == O && Observed(mask) > 0
    ensures Loss(u, pre, target, mask) * Observed(mask) as real
         == ObservedSquares(Minus(Activated(u, pre), target), mask, O)
  {
    hide Observed, LossSum, ObservedSquares;
    LossIsQuotient(u, pre, target, mask);
    TimesCount(LossSum(u, pre, target, mask, O), Observed(mask) as real);
    LossSumIs(u, pre, target, mask, O);
  }

  lemma TimesCount(x: real, count: real)
    requires count > 0.0
    ensures (x / count) * count == x
  {
  }

  lemma {:induction false} LossSumIs(u: Setup, pre: Vector, target: Vector, mask: seq<bool>, n: nat)
    requires u.a == Exact(u.a.sqrt, u.a.softplus, u.a.sigmoid)
    requires |pre| == O && |target| == O && |mask| == O && n <= O
    ensures LossSum(u, pre, target, mask, n) == ObservedSquares(Minus(Activated(u, pre), target), mask, n)
  {
    hide Times, Exact, Difference;
    if n > 0 {
      LossSumIs(u, pre, target, mask, n - 1);
      LossSumExact(u, pre, target, mask, n - 1);
      DifferenceIs(u, pre, target, n - 1);
    }
  }

  lemma DifferenceIs(u: Setup, pre: Vector, target: Vector, j: nat)
    requires u.a == Exact(u.a.sqrt, u.a.softplus, u.a.sigmoid) && |pre| == O && |target| == O && j < O
    ensures Difference(u, pre, target, j) == Minus(Activated(u, pre), target)[j]
  {
  }

  lemma DivideByCount(x: real, y: real, g: real, q: real, count: real)
    requires count > 0.0 && y == x + Times(count, g) + q
    ensures y / count == x / count + g + q / count
  {
    var a, b := x / count, q / count;
    assert a * count == x && b * count == q;
    QuotientIs(y, count, a + g + b);
  }

  /**
   * The loss gradient is the gradient of the masked mean squared error: moving the outputs changes the loss
   * by the gradient against the move, plus the mean squared move of the observed outputs.
   */
  lemma LossGradientExpansion(u: Setup, pre: Vector, pre': Vector, target: Vector, mask: seq<bool>)
    requires u.a == Exact(u.a.sqrt, u.a.softplus, u.a.sigmoid)
    requires |pre| == |pre'| == O && |target| == O && |mask| == O && Observed(mask) > 0
    ensures var delta := Minus(Activated(u, pre'), Activated(u, pre));
      Loss(u, pre', target, mask)
      == Loss(u, pre, target, mask) + Dot(LossGradient(u, pre, target, mask), delta, O)
       + ObservedSquares(delta, mask, O) / Observed(mask) as real
  {
    hide Times, Observed, Exact, LossSum, Dot, LossGradient, ObservedSquares, Activated;
    var delta := Minus(Activated(u, pre'), Activated(u, pre));
    LossSumExpansion(u, pre, pre', target, mask, O);
    LossIsQuotient(u, pre, target, mask);
    LossIsQuotient(u, pre', target, mask);
    DivideByCount(LossSum(u, pre, target, mask, O), LossSum(u, pre', target, mask, O),
                  Dot(LossGradient(u, pre, target, mask), delta, O), ObservedSquares(delta, mask, O),
                  Observed(mask) as real);
  }

  lemma LossIsQuotient(u: Setup, pre: Vector, target: Vector, mask: seq<bool>)
    requires u.a == Exact(u.a.sqrt, u.a.softplus, u.a.sigmoid)
    requires |pre| == O && |target| == O && |mask| == O && Observed(mask) > 0
    ensures Loss(u, pre, target, mask) == LossSum(u, pre, target, mask, O) / Observed(mask) as real
  {
    hide Observed, LossSum;
  }
}

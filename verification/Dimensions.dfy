/** The shape of the network, and of matrices stored row by row. */
module Dimensions {
  /** Input features. */
  const F := 16
  /** Hidden neurons. */
  const H := 32
  /** Outputs. */
  const O := 16

  predicate IsMatrix(w: seq<seq<real>>, rows: nat, cols: nat) {
    |w| == rows && forall r :: 0 <= r < rows ==> |w[r]| == cols
  }

  lemma RowEndsInside(rows: nat, cols: nat, r: nat)
    requires r < rows
    ensures r * cols + cols <= rows * cols
  {
    var left := rows - r - 1;
    RowsSplit(r, left, cols);
    NoLess(left, cols);
  }

  lemma RowsSplit(r: nat, left: nat, cols: nat)
    ensures (r + 1 + left) * cols == r * cols + cols + left * cols
  {
  }

  lemma NoLess(left: nat, cols: nat)
    ensures left * cols >= 0
  {
  }
}

/** Feature and target matrices as sequences of rows of integers, and
    predicted label matrices as sequences of rows of reals. */
module Matrices {

  type Row = seq<int>
  type Matrix = seq<Row>
  type LabelMatrix = seq<seq<real>>

  /** Every row of `m` has `width` entries. */
  predicate Rectangular(m: Matrix, width: nat)
  {
    forall i :: 0 <= i < |m| ==> |m[i]| == width
  }

  /** Every row of `x` has as many entries as every row of `y`: what the
      pairwise distance computations need of their two arguments. */
  predicate RowsMatch(x: Matrix, y: Matrix)
  {
    forall i, j :: 0 <= i < |x| && 0 <= j < |y| ==> |x[i]| == |y[j]|
  }

  /** Column `c` of `m`, top to bottom. */
  function Column(m: Matrix, c: nat): (col: seq<int>)
    requires forall i :: 0 <= i < |m| ==> c < |m[i]|
    ensures |col| == |m| && forall i :: 0 <= i < |m| ==> col[i] == m[i][c]
  {
    seq(|m|, i requires 0 <= i < |m| => m[i][c])
  }

  /** `row` without its entry at `j`; the later entries move one place left. */
  function DropColumn(row: Row, j: nat): (r: Row)
    requires j < |row|
    ensures |r| == |row| - 1
    ensures forall c :: 0 <= c < j ==> r[c] == row[c]
    ensures forall c :: j <= c < |r| ==> r[c] == row[c + 1]
  {
    row[..j] + row[j + 1..]
  }
}

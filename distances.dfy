/** Pairwise distance matrices between the rows of two matrices
    (code/distances.py). Euclidean distance is represented by its square:
    the square root is monotone, so the order of the entries, which is all
    that neighbour selection uses, is the same. */
module Distances {
  import opened Matrices

  function Abs(x: int): (r: nat)
    ensures r == x || r == -x
  {
    if x < 0 then -x else x
  }

  /** Sum over k of (x[k] - y[k])^2: the Euclidean distance squared. */
  function SqEuclidean(x: Row, y: Row): (r: nat)
  {
    if |x| == 0 || |y| == 0 then 0
    else (x[0] - y[0]) * (x[0] - y[0]) + SqEuclidean(x[1..], y[1..])
  }

  /** Sum over k of |x[k] - y[k]|. */
  function Manhattan(x: Row, y: Row): (r: nat)
  {
    if |x| == 0 || |y| == 0 then 0
    else Abs(x[0] - y[0]) + Manhattan(x[1..], y[1..])
  }

  lemma {:induction false} SqEuclideanSymmetric(x: Row, y: Row)
    ensures SqEuclidean(x, y) == SqEuclidean(y, x)
  {
    if |x| != 0 && |y| != 0 {
      SqEuclideanSymmetric(x[1..], y[1..]);
    }
  }

  lemma {:induction false} ManhattanSymmetric(x: Row, y: Row)
    ensures Manhattan(x, y) == Manhattan(y, x)
  {
    if |x| != 0 && |y| != 0 {
      ManhattanSymmetric(x[1..], y[1..]);
    }
  }

  /** Two rows of one width are at squared Euclidean distance zero exactly
      when they are equal. */
  lemma {:induction false} SqEuclideanZeroIff(x: Row, y: Row)
    requires |x| == |y|
    ensures SqEuclidean(x, y) == 0 <==> x == y
  {
    if |x| != 0 {
      SqEuclideanZeroIff(x[1..], y[1..]);
      assert x == [x[0]] + x[1..] && y == [y[0]] + y[1..];
    }
  }

  /** Two rows of one width are at Manhattan distance zero exactly when
      they are equal. */
  lemma {:induction false} ManhattanZeroIff(x: Row, y: Row)
    requires |x| == |y|
    ensures Manhattan(x, y) == 0 <==> x == y
  {
    if |x| != 0 {
      ManhattanZeroIff(x[1..], y[1..]);
      assert x == [x[0]] + x[1..] && y == [y[0]] + y[1..];
    }
  }

  /** With one feature the squared Euclidean distance is the square of |x - y|. */
  lemma OneFeatureEuclidean(a: int, b: int)
    ensures SqEuclidean([a], [b]) == Abs(a - b) * Abs(a - b)
  {
    assert [a][1..] == [] && [b][1..] == [];
  }

  /** Fills an |X| by |Y| matrix, cell by cell, with `dist` of each pair of rows. */
  method PairwiseDistances(X: Matrix, Y: Matrix, dist: (Row, Row) -> real) returns (D: array2<real>)
    ensures fresh(D) && D.Length0 == |X| && D.Length1 == |Y|
    ensures forall i, j :: 0 <= i < |X| && 0 <= j < |Y| ==> D[i, j] == dist(X[i], Y[j])
  {
    D := new real[|X|, |Y|]((i, j) => 0.0);
    for i := 0 to |X|
      invariant forall i', j :: 0 <= i' < i && 0 <= j < |Y| ==> D[i', j] == dist(X[i'], Y[j])
    {
      for j := 0 to |Y|
        invariant forall i', j' :: 0 <= i' < i && 0 <= j' < |Y| ==> D[i', j'] == dist(X[i'], Y[j'])
        invariant forall j' :: 0 <= j' < j ==> D[i, j'] == dist(X[i], Y[j'])
      {
        D[i, j] := dist(X[i], Y[j]);
      }
    }
  }

  /** Squared Euclidean distances between the rows of X and the rows of Y;
      on a matrix and itself the diagonal is zero and the matrix symmetric. */
  method EuclideanDistances(X: Matrix, Y: Matrix) returns (D: array2<real>)
    requires RowsMatch(X, Y)
    ensures fresh(D) && D.Length0 == |X| && D.Length1 == |Y|
    ensures forall i, j :: 0 <= i < |X| && 0 <= j < |Y| ==> D[i, j] == SqEuclidean(X[i], Y[j]) as real
    ensures X == Y ==> forall i :: 0 <= i < |X| ==> D[i, i] == 0.0
    ensures X == Y ==> forall i, j :: 0 <= i < |X| && 0 <= j < |X| ==> D[i, j] == D[j, i]
  {
    D := PairwiseDistances(X, Y, (x, y) => SqEuclidean(x, y) as real);
    if X == Y {
      forall i | 0 <= i < |X| ensures D[i, i] == 0.0 {
        SqEuclideanZeroIff(X[i], X[i]);
      }
      forall i, j | 0 <= i < |X| && 0 <= j < |X| ensures D[i, j] == D[j, i] {
        SqEuclideanSymmetric(X[i], X[j]);
      }
    }
  }

  /** Manhattan distances between the rows of X and the rows of Y; on a
      matrix and itself the diagonal is zero and the matrix symmetric. */
  method ManhattanDistances(X: Matrix, Y: Matrix) returns (D: array2<real>)
    requires RowsMatch(X, Y)
    ensures fresh(D) && D.Length0 == |X| && D.Length1 == |Y|
    ensures forall i, j :: 0 <= i < |X| && 0 <= j < |Y| ==> D[i, j] == Manhattan(X[i], Y[j]) as real
    ensures X == Y ==> forall i :: 0 <= i < |X| ==> D[i, i] == 0.0
    ensures X == Y ==> forall i, j :: 0 <= i < |X| && 0 <= j < |X| ==> D[i, j] == D[j, i]
  {
    D := PairwiseDistances(X, Y, (x, y) => Manhattan(x, y) as real);
    if X == Y {
      forall i | 0 <= i < |X| ensures D[i, i] == 0.0 {
        ManhattanZeroIff(X[i], X[i]);
      }
      forall i, j | 0 <= i < |X| && 0 <= j < |X| ensures D[i, j] == D[j, i] {
        ManhattanSymmetric(X[i], X[j]);
      }
    }
  }

  /** Cosine distances between the rows of X and the rows of Y; the
      per-pair cosine formula is supplied as `cosine`. */
  method CosineDistances(X: Matrix, Y: Matrix, cosine: (Row, Row) -> real) returns (D: array2<real>)
    requires RowsMatch(X, Y)
    ensures fresh(D) && D.Length0 == |X| && D.Length1 == |Y|
    ensures forall i, j :: 0 <= i < |X| && 0 <= j < |Y| ==> D[i, j] == cosine(X[i], Y[j])
  {
    D := PairwiseDistances(X, Y, cosine);
  }
}

/** The collaborative-filtering imputation of
    code/collaborative_filtering.py. Column by column, left to right, the
    zero entries of a column are the missing ones; a fresh predictor with
    the default settings (squared Euclidean distance, mode) is fitted on the
    other columns of the rows where the column is present, with the column
    itself as a one-wide target, and its predictions for the missing rows
    are written into the array in place. The `distanceMeasure` and
    `aggregator` arguments are accepted and never used. */
module Imputation {
  import opened Outcomes
  import opened Matrices
  import opened Knn
  import opened Ranking
  import Distances

  /** The cells of a two-dimensional array, row by row. */
  function Grid(a: array2<int>): (g: Matrix)
    reads a
    ensures |g| == a.Length0 && Rectangular(g, a.Length1)
    ensures forall i, c :: 0 <= i < a.Length0 && 0 <= c < a.Length1 ==> g[i][c] == a[i, c]
  {
    seq(a.Length0, i requires 0 <= i < a.Length0 reads a =>
      seq(a.Length1, c requires 0 <= c < a.Length1 reads a => a[i, c]))
  }

  /** Column `j` is a valid index into every row of `g`. */
  predicate HasColumn(g: Matrix, j: nat)
  {
    forall i :: 0 <= i < |g| ==> j < |g[i]|
  }

  /** The rows among 0 .. n-1 whose entry in column `j` is zero (when
      `missing`) or non-zero (otherwise), in ascending order. */
  function RowsWhere(g: Matrix, j: nat, missing: bool, n: nat): (idx: seq<nat>)
    requires n <= |g| && HasColumn(g, j)
    ensures forall p :: 0 <= p < |idx| ==> idx[p] < n
    ensures forall p, q :: 0 <= p < q < |idx| ==> idx[p] < idx[q]
    ensures forall i :: 0 <= i < n ==> (i in idx <==> (g[i][j] == 0) == missing)
  {
    if n == 0 then []
    else
      var s := RowsWhere(g, j, missing, n - 1);
      if (g[n - 1][j] == 0) == missing then s + [n - 1] else s
  }

  /** The rows whose entry in column `j` is missing (zero), ascending. */
  function MissingRows(g: Matrix, j: nat): seq<nat>
    requires HasColumn(g, j)
  {
    RowsWhere(g, j, true, |g|)
  }

  /** The rows whose entry in column `j` is present (non-zero), ascending. */
  function PresentRows(g: Matrix, j: nat): seq<nat>
    requires HasColumn(g, j)
  {
    RowsWhere(g, j, false, |g|)
  }

  /** The given rows of `g` without their column `j`. */
  function OtherColumns(g: Matrix, j: nat, rows: seq<nat>): (m: Matrix)
    requires HasColumn(g, j) && forall p :: 0 <= p < |rows| ==> rows[p] < |g|
    ensures |m| == |rows| && forall p :: 0 <= p < |rows| ==> m[p] == DropColumn(g[rows[p]], j)
  {
    seq(|rows|, p requires 0 <= p < |rows| => DropColumn(g[rows[p]], j))
  }

  /** Training features for column `j`: the present rows without column `j`. */
  function TrainingFeatures(g: Matrix, j: nat): Matrix
    requires HasColumn(g, j)
  {
    OtherColumns(g, j, PresentRows(g, j))
  }

  /** Training targets for column `j`: column `j` of the present rows, one
      one-wide row each. */
  function TrainingTargets(g: Matrix, j: nat): (m: Matrix)
    requires HasColumn(g, j)
    ensures |m| == |PresentRows(g, j)|
    ensures forall p :: 0 <= p < |m| ==> m[p] == [g[PresentRows(g, j)[p]][j]]
  {
    var rows := PresentRows(g, j);
    seq(|rows|, p requires 0 <= p < |rows| => [g[rows[p]][j]])
  }

  /** Query features for column `j`: the missing rows without column `j`. */
  function Queries(g: Matrix, j: nat): Matrix
    requires HasColumn(g, j)
  {
    OtherColumns(g, j, MissingRows(g, j))
  }

  /** `g` with the cell (i, c) set to `v`. */
  function SetCell(g: Matrix, i: nat, c: nat, v: int): Matrix
    requires i < |g| && c < |g[i]|
  {
    g[i := g[i][c := v]]
  }

  /** A real label stored into an integer array: truncated toward zero. */
  function Truncate(x: real): (v: int)
    ensures x >= 0.0 ==> v as real <= x < v as real + 1.0
    ensures x < 0.0 ==> v as real - 1.0 < x <= v as real
  {
    if x >= 0.0 then x.Floor else -((-x).Floor)
  }

  /** `g` with the first `n` predictions written into column `j`, the d-th
      into row idx[d]. */
  function WriteBack(g: Matrix, j: nat, idx: seq<nat>, L: LabelMatrix, n: nat): (r: Matrix)
    requires HasColumn(g, j) && n <= |idx| && n <= |L|
    requires forall p :: 0 <= p < |idx| ==> idx[p] < |g|
    requires forall d :: 0 <= d < |L| ==> |L[d]| >= 1
    ensures |r| == |g| && forall i :: 0 <= i < |g| ==> |r[i]| == |g[i]|
  {
    if n == 0 then g
    else SetCell(WriteBack(g, j, idx, L, n - 1), idx[n - 1], j, Truncate(L[n - 1][0]))
  }

  /** What fills a column: given the grid and the column, label rows for the
      column's missing rows, in order, or a failure. */
  type Predictor = (Matrix, nat) -> Result<LabelMatrix>

  /** The prediction for the missing rows of column `j` by a predictor with
      the default settings, fitted on the present rows. */
  function ColumnPrediction(g: Matrix, j: nat, k: nat): Result<LabelMatrix>
    requires HasColumn(g, j)
  {
    Prediction(Euclidean, Mode, k, Some(TrainingFeatures(g, j)), Some(TrainingTargets(g, j)), Queries(g, j))
  }

  /** The predictor every column uses: a fresh `KNearestNeighbor(k)` with the
      default distance and aggregator. */
  function DefaultPredictor(k: nat): Predictor
  {
    (h: Matrix, j: nat) => if HasColumn(h, j) then ColumnPrediction(h, j, k) else Err(ShapeMismatch)
  }

  /** Imputes column `j` of the rectangular grid `g`: unchanged when the
      column has no zero; otherwise the labels written back in order, the
      prediction's failure, or a shape failure when there are more labels
      than missing rows or a label row is empty. */
  function ImputeColumn(g: Matrix, w: nat, j: nat, predict: Predictor): (r: Result<Matrix>)
    requires Rectangular(g, w) && j < w
    ensures r.Ok? ==> |r.value| == |g| && Rectangular(r.value, w)
  {
    var idx := MissingRows(g, j);
    if |idx| == 0 then Ok(g)
    else
      match predict(g, j)
      case Err(e) => Err(e)
      case Ok(L) =>
        if |L| <= |idx| && forall d :: 0 <= d < |L| ==> |L[d]| >= 1 then Ok(WriteBack(g, j, idx, L, |L|))
        else Err(ShapeMismatch)
  }

  /** How far an imputation got: the grid reached, and the failure that
      stopped it, if any. */
  datatype Progress = Progress(grid: Matrix, failure: Option<Error>)

  /** Columns 0 .. n-1 imputed in order, each on the grid left by the ones
      before it; the first failure stops the run. */
  function ImputeColumns(g: Matrix, w: nat, predict: Predictor, n: nat): (p: Progress)
    requires Rectangular(g, w) && n <= w
    ensures |p.grid| == |g| && Rectangular(p.grid, w)
  {
    if n == 0 then Progress(g, None)
    else
      var p := ImputeColumns(g, w, predict, n - 1);
      if p.failure.Some? then p
      else
        match ImputeColumn(p.grid, w, n - 1, predict)
        case Ok(g') => Progress(g', None)
        case Err(e) => Progress(p.grid, Some(e))
  }

  /** The whole imputation of a grid of width `w`; a grid without rows has no
      first row to take the width from. */
  function Impute(g: Matrix, w: nat, predict: Predictor): Progress
    requires Rectangular(g, w)
  {
    if |g| == 0 then Progress(g, Some(EmptyInput))
    else ImputeColumns(g, w, predict, w)
  }

  // ----- the train/query split -----

  /** The missing and the present rows of column `j` together list every
      row once; the training targets are non-zero. */
  lemma SplitPartitions(g: Matrix, j: nat)
    requires HasColumn(g, j)
    ensures |MissingRows(g, j)| + |PresentRows(g, j)| == |g|
    ensures forall i :: 0 <= i < |g| ==> (i in MissingRows(g, j) <==> i !in PresentRows(g, j))
    ensures forall p :: 0 <= p < |TrainingTargets(g, j)| ==> TrainingTargets(g, j)[p][0] != 0
  {
    PartitionCount(g, j, |g|);
  }

  lemma {:induction false} PartitionCount(g: Matrix, j: nat, n: nat)
    requires n <= |g| && HasColumn(g, j)
    ensures |RowsWhere(g, j, true, n)| + |RowsWhere(g, j, false, n)| == n
  {
    if n > 0 {
      PartitionCount(g, j, n - 1);
    }
  }

  lemma {:induction false} NoRowsWhere(g: Matrix, j: nat, missing: bool, n: nat)
    requires n <= |g| && HasColumn(g, j)
    requires forall i :: 0 <= i < n ==> (g[i][j] == 0) != missing
    ensures RowsWhere(g, j, missing, n) == []
  {
    if n > 0 {
      NoRowsWhere(g, j, missing, n - 1);
    }
  }

  /** The split of a rectangular grid fits together as a predictor needs:
      queries as wide as training rows, one one-wide target per training row. */
  lemma SplitAligned(g: Matrix, w: nat, j: nat)
    requires Rectangular(g, w) && j < w
    ensures Aligned(TrainingFeatures(g, j), TrainingTargets(g, j), Queries(g, j))
    ensures |TrainingTargets(g, j)| > 0 ==> Width(TrainingTargets(g, j)) == 1
  {
  }

  // ----- the default predictor -----

  /** A successful default prediction for a column with missing rows has
      one one-wide label row per missing row. */
  lemma DefaultPredictionShape(g: Matrix, w: nat, j: nat, k: nat)
    requires Rectangular(g, w) && j < w
    ensures var r := ColumnPrediction(g, j, k);
      r.Ok? && |MissingRows(g, j)| > 0 ==>
        |r.value| == |MissingRows(g, j)| && forall d :: 0 <= d < |r.value| ==> |r.value[d]| == 1
  {
    var F, T, Q := TrainingFeatures(g, j), TrainingTargets(g, j), Queries(g, j);
    SplitAligned(g, w, j);
    PredictionShape(Euclidean, Mode, k, F, T, Q);
    PredictionSucceeds(Euclidean, Mode, k, F, T, Q);
  }

  /** Column `c` of `g` holds a non-zero entry. */
  predicate HasValue(g: Matrix, c: nat)
  {
    exists i :: 0 <= i < |g| && c < |g[i]| && g[i][c] != 0
  }

  /** `v` is one of the non-zero entries of column `c` of `g`. */
  predicate PresentValue(g: Matrix, c: nat, v: int)
  {
    exists i :: 0 <= i < |g| && c < |g[i]| && g[i][c] != 0 && g[i][c] == v
  }

  /** `predict` fills column `j` of `g`: it succeeds, and when the column has
      missing rows it gives one one-wide label row per missing row, each
      label one of the column's non-zero entries. */
  predicate FillsColumn(predict: Predictor, g: Matrix, w: nat, j: nat)
    requires Rectangular(g, w) && j < w
  {
    var r := predict(g, j);
    r.Ok? &&
    (|MissingRows(g, j)| > 0 ==>
      |r.value| == |MissingRows(g, j)| &&
      forall d :: 0 <= d < |r.value| ==>
        |r.value[d]| == 1 && r.value[d][0] == Truncate(r.value[d][0]) as real &&
        PresentValue(g, j, Truncate(r.value[d][0])))
  }

  /** On non-negative data with a non-zero entry in column `j`, the default
      prediction with at least one neighbour succeeds and, when the column
      has missing rows, gives one one-wide label row per missing row whose
      label is the target of a present row. */
  lemma DefaultLabelsAreTargets(g: Matrix, w: nat, j: nat, k: nat)
    requires Rectangular(g, w) && j < w && k >= 1 && NonNegative(g) && HasValue(g, j)
    ensures var r := ColumnPrediction(g, j, k);
      r.Ok? &&
      (|MissingRows(g, j)| > 0 ==>
        |r.value| == |MissingRows(g, j)| &&
        forall d :: 0 <= d < |r.value| ==>
          |r.value[d]| == 1 && TargetValue(g, j, r.value[d][0]))
  {
    var present := PresentRows(g, j);
    var F, T, Q := TrainingFeatures(g, j), TrainingTargets(g, j), Queries(g, j);
    SplitAligned(g, w, j);
    assert |T| > 0 by {
      var i0 :| 0 <= i0 < |g| && j < |g[i0]| && g[i0][j] != 0;
      assert i0 in present;
    }
    assert NonNegative(T) by {
      forall p, c | 0 <= p < |T| && 0 <= c < |T[p]| ensures T[p][c] >= 0 {
        assert T[p] == [g[present[p]][j]];
      }
    }
    PredictionSucceeds(Euclidean, Mode, k, F, T, Q);
    ModeLabelsOneWide(Euclidean, k, F, T, Q);
  }

  /** `x` is the label of one of the training targets of column `j`. */
  predicate TargetValue(g: Matrix, j: nat, x: real)
    requires HasColumn(g, j)
  {
    exists t :: 0 <= t < |TrainingTargets(g, j)| && x == TrainingTargets(g, j)[t][0] as real
  }

  /** A training target of column `j` is an integer, one of the column's
      non-zero entries. */
  lemma TargetIsPresent(g: Matrix, w: nat, j: nat, x: real)
    requires Rectangular(g, w) && j < w && TargetValue(g, j, x)
    ensures x == Truncate(x) as real && PresentValue(g, j, Truncate(x))
  {
    var present := PresentRows(g, j);
    var t :| 0 <= t < |TrainingTargets(g, j)| && x == TrainingTargets(g, j)[t][0] as real;
    assert present[t] in present;
    assert Truncate(x) == g[present[t]][j];
  }

  /** On non-negative data with a non-zero entry in column `j`, the default
      predictor with at least one neighbour fills the column: every label
      is the value of a nearest present row. */
  lemma DefaultPredictorFills(g: Matrix, w: nat, j: nat, k: nat)
    requires Rectangular(g, w) && j < w && k >= 1 && NonNegative(g) && HasValue(g, j)
    ensures FillsColumn(DefaultPredictor(k), g, w, j)
  {
    DefaultLabelsAreTargets(g, w, j, k);
    assert DefaultPredictor(k)(g, j) == ColumnPrediction(g, j, k);
    if |MissingRows(g, j)| > 0 {
      var L: LabelMatrix := ColumnPrediction(g, j, k).value;
      forall d | 0 <= d < |L|
        ensures L[d][0] == Truncate(L[d][0]) as real && PresentValue(g, j, Truncate(L[d][0]))
      {
        TargetIsPresent(g, w, j, L[d][0]);
      }
    }
  }

  // ----- which value is imputed -----

  /** `v` is the entry in column `j` of one of the present rows selected as
      nearest to the d-th missing row, by squared Euclidean distance over
      the other columns. */
  predicate NearestValue(g: Matrix, j: nat, k: nat, d: nat, v: int)
    requires HasColumn(g, j) && d < |MissingRows(g, j)|
  {
    exists t :: t in NearestIndices(Euclidean, k, TrainingFeatures(g, j), Queries(g, j)[d]) &&
      t < |PresentRows(g, j)| && v == g[PresentRows(g, j)[t]][j]
  }

  /** Each label of a successful default prediction is an integer: the
      column-`j` value of one of the `k` present rows nearest to its
      missing row. */
  lemma DefaultLabelIsNearest(g: Matrix, w: nat, j: nat, k: nat)
    requires Rectangular(g, w) && j < w
    ensures var r := ColumnPrediction(g, j, k);
      r.Ok? && |MissingRows(g, j)| > 0 ==>
        |r.value| == |MissingRows(g, j)| &&
        forall d :: 0 <= d < |r.value| ==>
          |r.value[d]| == 1 && r.value[d][0] == Truncate(r.value[d][0]) as real &&
          NearestValue(g, j, k, d, Truncate(r.value[d][0]))
  {
    var F, T, Q := TrainingFeatures(g, j), TrainingTargets(g, j), Queries(g, j);
    SplitAligned(g, w, j);
    if ColumnPrediction(g, j, k).Ok? && |MissingRows(g, j)| > 0 {
      var L: LabelMatrix := ColumnPrediction(g, j, k).value;
      assert |T| > 0 by {
        PredictionSucceeds(Euclidean, Mode, k, F, T, Q);
      }
      ModeLabelsOneWide(Euclidean, k, F, T, Q);
      forall d | 0 <= d < |L|
        ensures L[d][0] == Truncate(L[d][0]) as real && NearestValue(g, j, k, d, Truncate(L[d][0]))
      {
        NearestTargetValue(g, w, j, k, d, L[d][0]);
      }
    }
  }

  /** The target of a present row selected for the d-th missing row is an
      integer, that row's value in column `j`. */
  lemma NearestTargetValue(g: Matrix, w: nat, j: nat, k: nat, d: nat, x: real)
    requires Rectangular(g, w) && j < w && d < |MissingRows(g, j)|
    requires NearestTarget(Euclidean, k, TrainingFeatures(g, j), TrainingTargets(g, j), Queries(g, j)[d], x)
    ensures x == Truncate(x) as real && NearestValue(g, j, k, d, Truncate(x))
  {
    var present := PresentRows(g, j);
    var F, T, Q := TrainingFeatures(g, j), TrainingTargets(g, j), Queries(g, j);
    var t :| t in NearestIndices(Euclidean, k, F, Q[d]) && t < |T| && 0 < |T[t]| && x == T[t][0] as real;
    assert T[t] == [g[present[t]][j]];
    assert Truncate(x) == g[present[t]][j];
  }

  /** The cell the imputation writes for the d-th missing row of column `j`
      holds the column-`j` value of one of the `k` present rows nearest to
      that row. */
  lemma ImputedCellIsNearest(g: Matrix, w: nat, j: nat, k: nat)
    requires Rectangular(g, w) && j < w
    ensures var r := ImputeColumn(g, w, j, DefaultPredictor(k));
      r.Ok? ==> forall d :: 0 <= d < |MissingRows(g, j)| ==>
        NearestValue(g, j, k, d, r.value[MissingRows(g, j)[d]][j])
  {
    var idx := MissingRows(g, j);
    if ImputeColumn(g, w, j, DefaultPredictor(k)).Ok? && |idx| > 0 {
      ImputeColumnFrame(g, w, j, DefaultPredictor(k));
      DefaultLabelIsNearest(g, w, j, k);
      assert DefaultPredictor(k)(g, j) == ColumnPrediction(g, j, k);
    }
  }

  /** With one neighbour, on non-negative data, a missing row whose other
      columns are strictly nearer to those of present row p than to those
      of any other present row is imputed with row p's value. */
  lemma OneNeighbourImputesNearest(g: Matrix, w: nat, j: nat, d: nat, p: nat)
    requires Rectangular(g, w) && j < w && NonNegative(g)
    requires d < |MissingRows(g, j)| && p < |PresentRows(g, j)|
    requires forall t :: 0 <= t < |PresentRows(g, j)| && t != p ==>
      Distances.SqEuclidean(DropColumn(g[MissingRows(g, j)[d]], j), DropColumn(g[PresentRows(g, j)[p]], j)) <
      Distances.SqEuclidean(DropColumn(g[MissingRows(g, j)[d]], j), DropColumn(g[PresentRows(g, j)[t]], j))
    ensures var r := ImputeColumn(g, w, j, DefaultPredictor(1));
      r.Ok? && r.value[MissingRows(g, j)[d]][j] == g[PresentRows(g, j)[p]][j]
  {
    var present := PresentRows(g, j);
    assert HasValue(g, j) by {
      assert present[p] in present;
    }
    OneNeighbourSelected(g, w, j, d, p);
    DefaultPredictorFills(g, w, j, 1);
    ImputeColumnFills(g, w, j, DefaultPredictor(1));
    ImputedCellIsNearest(g, w, j, 1);
    var r := ImputeColumn(g, w, j, DefaultPredictor(1));
    assert NearestValue(g, j, 1, d, r.value[MissingRows(g, j)[d]][j]);
  }

  /** Under the condition above, present row p is the one neighbour selected
      for the d-th missing row. */
  lemma OneNeighbourSelected(g: Matrix, w: nat, j: nat, d: nat, p: nat)
    requires Rectangular(g, w) && j < w
    requires d < |MissingRows(g, j)| && p < |PresentRows(g, j)|
    requires forall t :: 0 <= t < |PresentRows(g, j)| && t != p ==>
      Distances.SqEuclidean(DropColumn(g[MissingRows(g, j)[d]], j), DropColumn(g[PresentRows(g, j)[p]], j)) <
      Distances.SqEuclidean(DropColumn(g[MissingRows(g, j)[d]], j), DropColumn(g[PresentRows(g, j)[t]], j))
    ensures NearestIndices(Euclidean, 1, TrainingFeatures(g, j), Queries(g, j)[d]) == [p]
  {
    var F, Q := TrainingFeatures(g, j), Queries(g, j);
    var dist := DistanceRow(Euclidean, Q[d], F);
    forall t | 0 <= t < |dist| && t != p ensures dist[p] < dist[t] {
    }
    UniqueNearest(dist, p);
  }

  // ----- writing the predictions back -----

  /** After writing the first `n` predictions, row idx[d] of column `j`
      holds the d-th prediction truncated, and every other cell is
      unchanged. */
  lemma {:induction false} WriteBackCells(g: Matrix, j: nat, idx: seq<nat>, L: LabelMatrix, n: nat)
    requires HasColumn(g, j) && n <= |idx| && n <= |L|
    requires forall p :: 0 <= p < |idx| ==> idx[p] < |g|
    requires forall p, q :: 0 <= p < q < |idx| ==> idx[p] < idx[q]
    requires forall d :: 0 <= d < |L| ==> |L[d]| >= 1
    ensures var r := WriteBack(g, j, idx, L, n);
      (forall d :: 0 <= d < n ==> r[idx[d]][j] == Truncate(L[d][0])) &&
      (forall i, c :: 0 <= i < |g| && 0 <= c < |g[i]| && (c != j || i !in idx[..n]) ==> r[i][c] == g[i][c])
  {
    if n > 0 {
      WriteBackCells(g, j, idx, L, n - 1);
      var r := WriteBack(g, j, idx, L, n);
      forall i, c | 0 <= i < |g| && 0 <= c < |g[i]| && (c != j || i !in idx[..n])
        ensures r[i][c] == g[i][c]
      {
        assert idx[..n - 1] <= idx[..n];
      }
      forall d | 0 <= d < n ensures r[idx[d]][j] == Truncate(L[d][0]) {
        if d < n - 1 {
          assert idx[d] != idx[n - 1];
        }
      }
    }
  }

  /** Imputing one column changes only zero cells of that column, and
      writes the d-th label into the d-th missing row. */
  lemma ImputeColumnFrame(g: Matrix, w: nat, j: nat, predict: Predictor)
    requires Rectangular(g, w) && j < w
    ensures var r := ImputeColumn(g, w, j, predict);
      r.Ok? ==> forall i, c :: 0 <= i < |g| && 0 <= c < w && r.value[i][c] != g[i][c] ==>
                  c == j && g[i][j] == 0
    ensures var r := ImputeColumn(g, w, j, predict);
      r.Ok? && |MissingRows(g, j)| > 0 ==>
        predict(g, j).Ok? &&
        var L := predict(g, j).value;
        |L| <= |MissingRows(g, j)| &&
        forall d :: 0 <= d < |L| ==> |L[d]| >= 1 && r.value[MissingRows(g, j)[d]][j] == Truncate(L[d][0])
  {
    var idx := MissingRows(g, j);
    if |idx| > 0 && ImputeColumn(g, w, j, predict).Ok? {
      var L := predict(g, j).value;
      WriteBackCells(g, j, idx, L, |L|);
      forall i | 0 <= i < |g| && g[i][j] != 0 ensures i !in idx[..|L|] {
        assert idx[..|L|] <= idx;
      }
    }
  }

  /** A column without zeros is left as it is. */
  lemma NoZeroColumnSkipped(g: Matrix, w: nat, j: nat, predict: Predictor)
    requires Rectangular(g, w) && j < w
    requires forall i :: 0 <= i < |g| ==> g[i][j] != 0
    ensures ImputeColumn(g, w, j, predict) == Ok(g)
  {
    NoRowsWhere(g, j, true, |g|);
  }

  /** Writing, into the zero cells of column `j`, labels each an integer
      taken from a non-zero cell of that column leaves every cell of the
      column equal to one of its original non-zero entries, and keeps
      non-negative data non-negative. */
  lemma FilledFromPresent(g: Matrix, r: Matrix, w: nat, j: nat, idx: seq<nat>, L: LabelMatrix)
    requires Rectangular(g, w) && Rectangular(r, w) && |r| == |g| && j < w && NonNegative(g)
    requires forall i, c :: 0 <= i < |g| && 0 <= c < w && r[i][c] != g[i][c] ==> c == j && g[i][j] == 0
    requires forall i :: 0 <= i < |g| && g[i][j] == 0 ==> i in idx
    requires |L| == |idx| && forall p :: 0 <= p < |idx| ==> idx[p] < |g|
    requires forall d :: 0 <= d < |L| ==> |L[d]| >= 1 && r[idx[d]][j] == Truncate(L[d][0])
    requires forall d :: 0 <= d < |L| ==> PresentValue(g, j, Truncate(L[d][0]))
    ensures forall i :: 0 <= i < |g| ==> PresentValue(g, j, r[i][j])
    ensures NonNegative(r)
  {
    forall i | 0 <= i < |g| ensures PresentValue(g, j, r[i][j]) {
      if g[i][j] == 0 {
        var d :| 0 <= d < |idx| && idx[d] == i;
        assert r[i][j] == Truncate(L[d][0]);
      } else {
        assert r[i][j] == g[i][j];
      }
    }
    forall i, c | 0 <= i < |r| && 0 <= c < |r[i]| ensures r[i][c] >= 0 {
      if c == j {
        assert PresentValue(g, j, r[i][j]);
      } else {
        assert r[i][c] == g[i][c];
      }
    }
  }

  /** Non-negative data and a predictor that fills the column: imputing the
      column succeeds, fills each missing row with one of the column's
      present values, and leaves the grid non-negative. */
  lemma ImputeColumnFills(g: Matrix, w: nat, j: nat, predict: Predictor)
    requires Rectangular(g, w) && j < w && NonNegative(g) && FillsColumn(predict, g, w, j)
    ensures var r := ImputeColumn(g, w, j, predict);
      r.Ok? && NonNegative(r.value) && forall i :: 0 <= i < |g| ==> PresentValue(g, j, r.value[i][j])
  {
    var idx := MissingRows(g, j);
    ImputeColumnFrame(g, w, j, predict);
    var r := ImputeColumn(g, w, j, predict);
    if |idx| == 0 {
      FilledFromPresent(g, r.value, w, j, idx, []);
    } else {
      FilledFromPresent(g, r.value, w, j, idx, predict(g, j).value);
    }
  }

  /** Filling column `j` as above, over a grid whose columns before `j` hold
      no zero, leaves no zero in the columns up to and including `j`. */
  lemma FilledUpTo(g: Matrix, r: Matrix, w: nat, j: nat)
    requires Rectangular(g, w) && Rectangular(r, w) && |r| == |g| && j < w
    requires forall i, c :: 0 <= i < |g| && 0 <= c < j ==> g[i][c] != 0
    requires forall i, c :: 0 <= i < |g| && 0 <= c < w && r[i][c] != g[i][c] ==> c == j && g[i][j] == 0
    requires forall i :: 0 <= i < |g| ==> PresentValue(g, j, r[i][j])
    ensures forall i, c :: 0 <= i < |g| && 0 <= c <= j ==> r[i][c] != 0
  {
    forall i, c | 0 <= i < |g| && 0 <= c <= j ensures r[i][c] != 0 {
      if c == j {
        assert PresentValue(g, j, r[i][j]);
      } else {
        assert r[i][c] == g[i][c];
      }
    }
  }

  // ----- the whole run -----

  /** A run that has failed stays failed, on the grid it had reached. */
  lemma {:induction false} FailureIsFinal(g: Matrix, w: nat, predict: Predictor, n: nat, m: nat)
    requires Rectangular(g, w) && n <= m <= w
    requires ImputeColumns(g, w, predict, n).failure.Some?
    ensures ImputeColumns(g, w, predict, m) == ImputeColumns(g, w, predict, n)
  {
    if m > n {
      FailureIsFinal(g, w, predict, n, m - 1);
    }
  }

  /** A grid without zeros is returned unchanged. */
  lemma NoZerosUnchanged(g: Matrix, w: nat, predict: Predictor, n: nat)
    requires Rectangular(g, w) && n <= w
    requires forall i, c :: 0 <= i < |g| && 0 <= c < w ==> g[i][c] != 0
    ensures ImputeColumns(g, w, predict, n) == Progress(g, None)
  {
    NoZerosBefore(g, w, predict, n);
  }

  /** After the first `n` columns, the columns from `n` on are as they were,
      and every cell that changed was zero to begin with. */
  lemma {:induction false} ImputeColumnsFrame(g: Matrix, w: nat, predict: Predictor, n: nat)
    requires Rectangular(g, w) && n <= w
    ensures var r := ImputeColumns(g, w, predict, n).grid;
      (forall i, c :: 0 <= i < |g| && n <= c < w ==> r[i][c] == g[i][c]) &&
      (forall i, c :: 0 <= i < |g| && 0 <= c < w && r[i][c] != g[i][c] ==> g[i][c] == 0)
  {
    if n > 0 {
      ImputeColumnsFrame(g, w, predict, n - 1);
      var p := ImputeColumns(g, w, predict, n - 1);
      var r := ImputeColumns(g, w, predict, n).grid;
      if p.failure.None? && ImputeColumn(p.grid, w, n - 1, predict).Ok? {
        ImputeColumnFrame(p.grid, w, n - 1, predict);
        assert r == ImputeColumn(p.grid, w, n - 1, predict).value;
        forall i, c | 0 <= i < |g| && 0 <= c < w && r[i][c] != g[i][c] ensures g[i][c] == 0 {
          if r[i][c] != p.grid[i][c] {
            assert c == n - 1 && p.grid[i][c] == 0;
          }
        }
      } else {
        assert r == p.grid;
      }
    }
  }

  /** The cells an imputation may change are the zero cells: every other
      cell, and the shape, are as they were. */
  lemma ImputeOnlyFillsZeros(g: Matrix, w: nat, predict: Predictor)
    requires Rectangular(g, w)
    ensures var r := Impute(g, w, predict).grid;
      |r| == |g| && Rectangular(r, w) &&
      forall i, c :: 0 <= i < |g| && 0 <= c < w && g[i][c] != 0 ==> r[i][c] == g[i][c]
  {
    if |g| > 0 {
      ImputeColumnsFrame(g, w, predict, w);
    }
  }

  /** With a predictor that fills every column of non-negative data that
      has a non-zero entry, imputing non-negative data whose every column
      has a non-zero entry succeeds and leaves a non-negative grid without
      zeros in the columns done. */
  lemma {:induction false} ImputeFillsEveryZero(g: Matrix, w: nat, predict: Predictor, n: nat)
    requires Rectangular(g, w) && n <= w && NonNegative(g)
    requires forall c :: 0 <= c < w ==> HasValue(g, c)
    requires forall h: Matrix, c: nat :: Rectangular(h, w) && c < w && NonNegative(h) && HasValue(h, c) ==>
      FillsColumn(predict, h, w, c)
    ensures var p := ImputeColumns(g, w, predict, n);
      p.failure.None? && NonNegative(p.grid) &&
      forall i, c :: 0 <= i < |g| && 0 <= c < n ==> p.grid[i][c] != 0
  {
    if n > 0 {
      var j := n - 1;
      ImputeFillsEveryZero(g, w, predict, j);
      ImputeColumnsFrame(g, w, predict, j);
      var p := ImputeColumns(g, w, predict, j);
      assert HasValue(p.grid, j) by {
        assert HasValue(g, j);
        var i0 :| 0 <= i0 < |g| && j < |g[i0]| && g[i0][j] != 0;
        assert p.grid[i0][j] == g[i0][j];
      }
      ImputeColumnFills(p.grid, w, j, predict);
      ImputeColumnFrame(p.grid, w, j, predict);
      var r := ImputeColumn(p.grid, w, j, predict).value;
      FilledUpTo(p.grid, r, w, j);
    }
  }

  /** "Any zeros will get imputed": on non-negative data whose every column
      has a non-zero entry, the imputation with at least one neighbour
      succeeds and leaves a non-negative grid without zeros. */
  lemma DefaultFillsEveryZero(g: Matrix, w: nat, k: nat)
    requires Rectangular(g, w) && |g| > 0 && k >= 1 && NonNegative(g)
    requires forall c :: 0 <= c < w ==> HasValue(g, c)
    ensures var p := Impute(g, w, DefaultPredictor(k));
      p.failure.None? && NonNegative(p.grid) &&
      forall i, c :: 0 <= i < |g| && 0 <= c < w ==> p.grid[i][c] != 0
  {
    forall h: Matrix, c: nat | Rectangular(h, w) && c < w && NonNegative(h) && HasValue(h, c)
      ensures FillsColumn(DefaultPredictor(k), h, w, c)
    {
      DefaultPredictorFills(h, w, c, k);
    }
    ImputeFillsEveryZero(g, w, DefaultPredictor(k), w);
  }

  /** Column `c` is the same in `a` and in `b`. */
  predicate SameColumn(a: Matrix, b: Matrix, c: nat)
  {
    |a| == |b| && forall i :: 0 <= i < |a| && c < |a[i]| && c < |b[i]| ==> a[i][c] == b[i][c]
  }

  /** Agreement on a column of grids of one width carries over from a to
      b to d. */
  lemma SameColumnTrans(a: Matrix, b: Matrix, d: Matrix, w: nat, c: nat)
    requires Rectangular(a, w) && Rectangular(b, w) && Rectangular(d, w) && c < w
    requires SameColumn(a, b, c) && SameColumn(b, d, c)
    ensures SameColumn(a, d, c)
  {
    forall i | 0 <= i < |a| && c < |a[i]| && c < |d[i]| ensures a[i][c] == d[i][c] {
      assert a[i][c] == b[i][c];
    }
  }

  /** Once column `c` is imputed, the later columns leave it as it is. */
  lemma {:induction false} ColumnStable(g: Matrix, w: nat, predict: Predictor, c: nat, n: nat)
    requires Rectangular(g, w) && c < n <= w
    ensures SameColumn(ImputeColumns(g, w, predict, n).grid, ImputeColumns(g, w, predict, c + 1).grid, c)
    decreases n
  {
    if n > c + 1 {
      ColumnStable(g, w, predict, c, n - 1);
      StepKeepsColumn(g, w, predict, c, n);
      SameColumnTrans(ImputeColumns(g, w, predict, n).grid, ImputeColumns(g, w, predict, n - 1).grid,
        ImputeColumns(g, w, predict, c + 1).grid, w, c);
    }
  }

  /** The step that imputes column n-1 leaves every other column as it was. */
  lemma StepKeepsColumn(g: Matrix, w: nat, predict: Predictor, c: nat, n: nat)
    requires Rectangular(g, w) && 0 < n <= w && c < w && c != n - 1
    ensures SameColumn(ImputeColumns(g, w, predict, n).grid, ImputeColumns(g, w, predict, n - 1).grid, c)
  {
    var p := ImputeColumns(g, w, predict, n - 1);
    if p.failure.None? && ImputeColumn(p.grid, w, n - 1, predict).Ok? {
      ImputeColumnFrame(p.grid, w, n - 1, predict);
    }
  }

  /** A grid without zeros in its first `n` columns comes through those
      columns unchanged. */
  lemma {:induction false} NoZerosBefore(g: Matrix, w: nat, predict: Predictor, n: nat)
    requires Rectangular(g, w) && n <= w
    requires forall i, c :: 0 <= i < |g| && 0 <= c < n ==> g[i][c] != 0
    ensures ImputeColumns(g, w, predict, n) == Progress(g, None)
  {
    if n > 0 {
      NoZerosBefore(g, w, predict, n - 1);
      assert forall i :: 0 <= i < |g| ==> g[i][n - 1] != 0;
      NoZeroColumnSkipped(g, w, n - 1, predict);
    }
  }

  /** Every row of column `j` of `h` holds one of the non-zero entries of
      column `j` of `g`. */
  predicate FilledColumn(g: Matrix, h: Matrix, j: nat)
  {
    forall i :: 0 <= i < |g| && i < |h| && j < |h[i]| ==> PresentValue(g, j, h[i][j])
  }

  /** With a predictor as in ImputeFillsEveryZero, the step that imputes
      column `j` leaves in every row of that column one of the column's
      original non-zero entries. */
  lemma ColumnFilledFromPresent(g: Matrix, w: nat, predict: Predictor, j: nat)
    requires Rectangular(g, w) && j < w && NonNegative(g)
    requires forall c :: 0 <= c < w ==> HasValue(g, c)
    requires forall h: Matrix, c: nat :: Rectangular(h, w) && c < w && NonNegative(h) && HasValue(h, c) ==>
      FillsColumn(predict, h, w, c)
    ensures FilledColumn(g, ImputeColumns(g, w, predict, j + 1).grid, j)
  {
    ImputeFillsEveryZero(g, w, predict, j);
    ImputeColumnsFrame(g, w, predict, j);
    var p := ImputeColumns(g, w, predict, j);
    assert HasValue(p.grid, j) by {
      assert HasValue(g, j);
      var i0 :| 0 <= i0 < |g| && j < |g[i0]| && g[i0][j] != 0;
      assert p.grid[i0][j] == g[i0][j];
    }
    ImputeColumnFills(p.grid, w, j, predict);
    var r := ImputeColumn(p.grid, w, j, predict).value;
    assert ImputeColumns(g, w, predict, j + 1).grid == r;
    forall i | 0 <= i < |g| ensures PresentValue(g, j, r[i][j]) {
      assert PresentValue(p.grid, j, r[i][j]);
      var i1 :| 0 <= i1 < |g| && j < |p.grid[i1]| && p.grid[i1][j] != 0 && p.grid[i1][j] == r[i][j];
      assert g[i1][j] == p.grid[i1][j];
    }
  }

  /** With a predictor as in ImputeFillsEveryZero, every cell of the
      imputed grid is one of its column's original non-zero entries. */
  lemma ImputePresentValues(g: Matrix, w: nat, predict: Predictor)
    requires Rectangular(g, w) && NonNegative(g)
    requires forall c :: 0 <= c < w ==> HasValue(g, c)
    requires forall h: Matrix, c: nat :: Rectangular(h, w) && c < w && NonNegative(h) && HasValue(h, c) ==>
      FillsColumn(predict, h, w, c)
    ensures var r := ImputeColumns(g, w, predict, w).grid;
      forall i, c :: 0 <= i < |g| && 0 <= c < w ==> PresentValue(g, c, r[i][c])
  {
    var r := ImputeColumns(g, w, predict, w).grid;
    forall i, c | 0 <= i < |g| && 0 <= c < w ensures PresentValue(g, c, r[i][c]) {
      ColumnStable(g, w, predict, c, w);
      ColumnFilledFromPresent(g, w, predict, c);
      var q := ImputeColumns(g, w, predict, c + 1).grid;
      assert FilledColumn(g, q, c);
    }
  }

  /** Each value of the finished imputation is one of its column's
      original non-zero entries: on non-negative data whose every column
      has a non-zero entry, with at least one neighbour, a zero is filled
      with a value of its own column and every other cell is as it was. */
  lemma DefaultImputesPresentValues(g: Matrix, w: nat, k: nat)
    requires Rectangular(g, w) && |g| > 0 && k >= 1 && NonNegative(g)
    requires forall c :: 0 <= c < w ==> HasValue(g, c)
    ensures var r := Impute(g, w, DefaultPredictor(k)).grid;
      forall i, c :: 0 <= i < |g| && 0 <= c < w ==> PresentValue(g, c, r[i][c])
  {
    forall h: Matrix, c: nat | Rectangular(h, w) && c < w && NonNegative(h) && HasValue(h, c)
      ensures FillsColumn(DefaultPredictor(k), h, w, c)
    {
      DefaultPredictorFills(h, w, c, k);
    }
    ImputePresentValues(g, w, DefaultPredictor(k));
    assert Impute(g, w, DefaultPredictor(k)) == ImputeColumns(g, w, DefaultPredictor(k), w);
  }

  /** The whole imputation with one neighbour, of non-negative data whose
      only zero is at row i0 of column `j`: when present row p's other
      columns are strictly nearer to row i0's than those of any other
      present row, the zero is replaced by row p's value. */
  lemma OnlyZeroImputedByNearest(g: Matrix, w: nat, i0: nat, j: nat, p: nat)
    requires Rectangular(g, w) && j < w && NonNegative(g) && i0 < |g|
    requires forall i, c :: 0 <= i < |g| && 0 <= c < w && g[i][c] == 0 ==> i == i0 && c == j
    requires p < |PresentRows(g, j)|
    requires forall t :: 0 <= t < |PresentRows(g, j)| && t != p ==>
      Distances.SqEuclidean(DropColumn(g[i0], j), DropColumn(g[PresentRows(g, j)[p]], j)) <
      Distances.SqEuclidean(DropColumn(g[i0], j), DropColumn(g[PresentRows(g, j)[t]], j))
    ensures g[i0][j] == 0 ==> Impute(g, w, DefaultPredictor(1)).grid[i0][j] == g[PresentRows(g, j)[p]][j]
  {
    if g[i0][j] == 0 {
      var idx := MissingRows(g, j);
      var d :| 0 <= d < |idx| && idx[d] == i0;
      NoZerosBefore(g, w, DefaultPredictor(1), j);
      OneNeighbourImputesNearest(g, w, j, d, p);
      ColumnStable(g, w, DefaultPredictor(1), j, w);
    }
  }

  /** Two grids that agree cell by cell are equal. */
  lemma GridsEqual(g: Matrix, h: Matrix, w: nat)
    requires Rectangular(g, w) && Rectangular(h, w) && |g| == |h|
    requires forall i, c :: 0 <= i < |g| && 0 <= c < w ==> g[i][c] == h[i][c]
    ensures g == h
  {
    forall i | 0 <= i < |g| ensures g[i] == h[i] {
    }
  }

  // ----- the imputation in place -----

  /** The rows of `a` whose entry in column `j` is zero, top to bottom. */
  method MissingIndex(a: array2<int>, j: nat) returns (index: seq<nat>)
    requires j < a.Length1
    ensures index == MissingRows(Grid(a), j)
  {
    index := [];
    for i := 0 to a.Length0
      invariant index == RowsWhere(Grid(a), j, true, i)
    {
      if a[i, j] == 0 {
        index := index + [i];
      }
    }
  }

  /** Sets one cell of `a`. */
  method SetEntry(a: array2<int>, i: nat, c: nat, v: int)
    requires i < a.Length0 && c < a.Length1
    modifies a
    ensures Grid(a) == SetCell(old(Grid(a)), i, c, v)
  {
    ghost var before := Grid(a);
    a[i, c] := v;
    GridsEqual(Grid(a), SetCell(before, i, c, v), a.Length1);
  }

  /** Writes the d-th label, truncated to an integer, into row index[d] of
      column `j`, for every label. */
  method WriteColumn(a: array2<int>, j: nat, index: seq<nat>, labels: LabelMatrix)
    requires j < a.Length1 && |labels| <= |index|
    requires forall p :: 0 <= p < |index| ==> index[p] < a.Length0
    requires forall d :: 0 <= d < |labels| ==> |labels[d]| >= 1
    modifies a
    ensures Grid(a) == WriteBack(old(Grid(a)), j, index, labels, |labels|)
  {
    ghost var g := Grid(a);
    for d := 0 to |labels|
      invariant Grid(a) == WriteBack(g, j, index, labels, d)
    {
      SetEntry(a, index[d], j, Truncate(labels[d][0]));
    }
  }

  /** Imputes column `j` of `a` in place with a fresh default predictor;
      on a failure `a` is left as it was and the failure returned. */
  method ImputeColumnInPlace(a: array2<int>, j: nat, nNeighbors: nat) returns (failure: Option<Error>)
    requires j < a.Length1
    modifies a
    ensures var r := ImputeColumn(old(Grid(a)), a.Length1, j, DefaultPredictor(nNeighbors));
      if r.Ok? then failure.None? && Grid(a) == r.value
      else failure == Some(r.error) && Grid(a) == old(Grid(a))
  {
    var index := MissingIndex(a, j);
    if |index| == 0 {
      return None;
    }
    ghost var g := Grid(a);
    var input := TrainingFeatures(Grid(a), j);
    var targets := TrainingTargets(Grid(a), j);
    var features := Queries(Grid(a), j);
    var knn := new KNearestNeighbor(nNeighbors);
    knn.Fit(input, targets);
    var labels := knn.Predict(features);
    assert labels == DefaultPredictor(nNeighbors)(g, j);
    if labels.Err? {
      return Some(labels.error);
    }
    DefaultPredictionShape(g, a.Length1, j, nNeighbors);
    WriteColumn(a, j, index, labels.value);
    return None;
  }

  /** Imputes the zero entries of `a` in place, column by column, and returns
      `a` itself; on a failure the columns before the failing one stay
      imputed. Whatever `distanceMeasure` and `aggregator` are passed, each
      column uses a predictor with the default settings. */
  method CollaborativeFiltering(a: array2<int>, nNeighbors: nat,
                                distanceMeasure: Measure := Euclidean, aggregator: Aggregator := Mode)
    returns (r: Result<array2<int>>)
    modifies a
    ensures var p := Impute(old(Grid(a)), a.Length1, DefaultPredictor(nNeighbors));
      Grid(a) == p.grid && r == (if p.failure.None? then Ok(a) else Err(p.failure.value))
  {
    if a.Length0 == 0 {
      return Err(EmptyInput);
    }
    ghost var g0 := Grid(a);
    ghost var predict := DefaultPredictor(nNeighbors);
    for j := 0 to a.Length1
      invariant ImputeColumns(g0, a.Length1, predict, j) == Progress(Grid(a), None)
    {
      var failure := ImputeColumnInPlace(a, j, nNeighbors);
      if failure.Some? {
        FailureIsFinal(g0, a.Length1, predict, j + 1, a.Length1);
        return Err(failure.value);
      }
    }
    return Ok(a);
  }
}

/** The K-nearest-neighbour predictor of code/k_nearest_neighbor.py: a
    fitted reference set (features and targets), and a prediction that, for
    every query row, ranks the reference rows by distance, takes the first
    `nNeighbors` of them and reduces their target rows to one label row with
    the configured aggregator. */
module Knn {
  import opened Outcomes
  import opened Matrices
  import opened Ranking
  import Distances
  import Aggregation

  /** The `distance_measure` setting. Euclidean distance is represented by
      its square; the cosine formula is carried as a per-pair function. Any
      other name selects no distance computation at all. */
  datatype Measure =
    | Euclidean
    | Manhattan
    | Cosine(pair: (Row, Row) -> real)
    | OtherMeasure(name: string)

  /** The `aggregator` setting; any other name selects no aggregation. */
  datatype Aggregator = Mean | Mode | Median | OtherAggregator(name: string)

  /** The distance between two rows under a recognised measure. */
  function Distance(m: Measure, x: Row, y: Row): real
    requires !m.OtherMeasure?
  {
    match m
    case Euclidean => Distances.SqEuclidean(x, y) as real
    case Manhattan => Distances.Manhattan(x, y) as real
    case Cosine(pair) => pair(x, y)
  }

  /** The distances from one query row to every reference row. */
  function DistanceRow(m: Measure, q: Row, F: Matrix): (d: seq<real>)
    requires !m.OtherMeasure?
    ensures |d| == |F| && forall j :: 0 <= j < |F| ==> d[j] == Distance(m, q, F[j])
  {
    seq(|F|, j requires 0 <= j < |F| => Distance(m, q, F[j]))
  }

  /** Row `i` of a distance matrix. */
  function RowOf(D: array2<real>, i: nat): (d: seq<real>)
    requires i < D.Length0
    reads D
    ensures |d| == D.Length1 && forall j :: 0 <= j < D.Length1 ==> d[j] == D[i, j]
  {
    seq(D.Length1, j requires 0 <= j < D.Length1 reads D => D[i, j])
  }

  /** The number of entries in the rows of `m` (0 for a matrix without rows). */
  function Width(m: Matrix): nat
  {
    if |m| == 0 then 0 else |m[0]|
  }

  /** The query rows are as wide as the reference rows, there is one target
      row per reference row, and all target rows are equally wide. */
  predicate Aligned(F: Matrix, T: Matrix, Q: Matrix)
  {
    RowsMatch(Q, F) && |T| == |F| && Rectangular(T, Width(T))
  }

  /** The target rows at the given reference indices, in that order. */
  function Gather(T: Matrix, idx: seq<nat>): (P: Matrix)
    requires forall p :: 0 <= p < |idx| ==> idx[p] < |T|
    ensures |P| == |idx| && forall p :: 0 <= p < |idx| ==> P[p] == T[idx[p]]
  {
    seq(|idx|, p requires 0 <= p < |idx| => T[idx[p]])
  }

  /** The reference indices selected for query row `q`. */
  function NearestIndices(m: Measure, k: nat, F: Matrix, q: Row): (nb: seq<nat>)
    requires !m.OtherMeasure?
    ensures |nb| == Min(k, |F|) && forall p :: 0 <= p < |nb| ==> nb[p] < |F|
  {
    Neighbours(DistanceRow(m, q, F), k)
  }

  /** The neighbour label set of query row `q`: the targets of its selected
      reference rows, in selection order. */
  function Neighbourhood(m: Measure, k: nat, F: Matrix, T: Matrix, q: Row): (P: Matrix)
    requires !m.OtherMeasure? && |T| == |F| && Rectangular(T, Width(T))
    ensures Rectangular(P, Width(T)) && (|P| > 0 ==> Width(P) == Width(T))
  {
    Gather(T, NearestIndices(m, k, F, q))
  }

  /** One label row from a neighbour label set under a recognised aggregator. */
  function RowLabel(agg: Aggregator, P: Matrix): Result<seq<real>>
    requires !agg.OtherAggregator? && Rectangular(P, Width(P))
  {
    if |P| == 0 then Err(NoNeighbours)
    else match agg
      case Mean => Ok(Aggregation.ColumnMeans(P))
      case Median => Ok(Aggregation.ColumnMedians(P))
      case Mode => Aggregation.ColumnModes(P)
  }

  /** The label row of every query row, in query order. */
  function RowLabels(m: Measure, agg: Aggregator, k: nat, F: Matrix, T: Matrix, Q: Matrix)
    : (rs: seq<Result<seq<real>>>)
    requires !m.OtherMeasure? && !agg.OtherAggregator? && Aligned(F, T, Q)
    ensures |rs| == |Q|
  {
    seq(|Q|, i requires 0 <= i < |Q| => RowLabel(agg, Neighbourhood(m, k, F, T, Q[i])))
  }

  /** What a prediction yields: an unrecognised measure fails before the
      fitted state is looked at; an unrecognised aggregator yields no label
      rows; otherwise the label rows, or the failure of the first query row
      that has none. */
  function Prediction(m: Measure, agg: Aggregator, k: nat,
                      features: Option<Matrix>, targets: Option<Matrix>, Q: Matrix)
    : Result<LabelMatrix>
  {
    if m.OtherMeasure? then Err(UnknownMetric)
    else if features.None? || targets.None? then Err(NotFitted)
    else if !Aligned(features.value, targets.value, Q) then Err(ShapeMismatch)
    else if agg.OtherAggregator? then Ok([])
    else AllOk(RowLabels(m, agg, k, features.value, targets.value, Q))
  }

  /** The distance matrix between the query rows and the reference rows
      under a recognised measure, dispatched on the measure. */
  method DistanceMatrix(m: Measure, Q: Matrix, F: Matrix) returns (D: array2<real>)
    requires !m.OtherMeasure? && RowsMatch(Q, F)
    ensures fresh(D) && D.Length0 == |Q| && D.Length1 == |F|
    ensures forall i :: 0 <= i < |Q| ==> RowOf(D, i) == DistanceRow(m, Q[i], F)
  {
    match m {
      case Euclidean => D := Distances.EuclideanDistances(Q, F);
      case Manhattan => D := Distances.ManhattanDistances(Q, F);
      case Cosine(pair) => D := Distances.CosineDistances(Q, F, pair);
    }
  }

  predicate NonNegative(T: Matrix)
  {
    forall t, c :: 0 <= t < |T| && 0 <= c < |T[t]| ==> T[t][c] >= 0
  }

  /** Under a recognised aggregator, a neighbour label set of rows of width
      `w` yields a label row of width `w`; it fails exactly when it is empty
      or, for the mode, holds a negative value. */
  lemma RowLabelMeaning(agg: Aggregator, P: Matrix, w: nat)
    requires !agg.OtherAggregator? && Rectangular(P, w) && (|P| > 0 ==> Width(P) == w)
    ensures RowLabel(agg, P).Ok? <==> |P| > 0 && (agg.Mode? ==> NonNegative(P))
    ensures RowLabel(agg, P).Ok? ==> |RowLabel(agg, P).value| == w
    ensures RowLabel(agg, P).Err? ==>
              RowLabel(agg, P).error == (if |P| == 0 then NoNeighbours else NegativeLabel)
  {
    if |P| > 0 && agg.Mode? {
      Aggregation.ColumnModesMeaning(P);
      var r := Aggregation.ColumnModes(P);
      if r.Err? {
        var rs := Aggregation.ModeResults(P);
        var c :| 0 <= c < |rs| && rs[c] == Err(r.error);
      }
    }
  }

  /** The label row of query row `i` under a recognised aggregator: as
      wide as the target rows; present exactly when a neighbour is selected
      (for the mode, when the selected targets are also non-negative). */
  lemma RowLabelAt(m: Measure, agg: Aggregator, k: nat, F: Matrix, T: Matrix, Q: Matrix, i: nat)
    requires !m.OtherMeasure? && !agg.OtherAggregator? && Aligned(F, T, Q) && i < |Q|
    ensures var row := RowLabels(m, agg, k, F, T, Q)[i];
      && (row.Ok? ==> |row.value| == Width(T))
      && (row.Ok? <==> Min(k, |F|) > 0 && (agg.Mode? ==> NonNegative(Neighbourhood(m, k, F, T, Q[i]))))
      && (row.Err? && Min(k, |F|) == 0 ==> row.error == NoNeighbours)
  {
    RowLabelMeaning(agg, Neighbourhood(m, k, F, T, Q[i]), Width(T));
  }

  /** With a recognised measure and aligned data, an unrecognised
      aggregator yields no label rows, and a successful prediction under a
      recognised one has one label row per query row, each as wide as the
      target rows. */
  lemma PredictionShape(m: Measure, agg: Aggregator, k: nat, F: Matrix, T: Matrix, Q: Matrix)
    requires !m.OtherMeasure? && Aligned(F, T, Q)
    ensures agg.OtherAggregator? ==> Prediction(m, agg, k, Some(F), Some(T), Q) == Ok([])
    ensures var r := Prediction(m, agg, k, Some(F), Some(T), Q);
      !agg.OtherAggregator? && r.Ok? ==>
        |r.value| == |Q| && forall i :: 0 <= i < |Q| ==> |r.value[i]| == Width(T)
  {
    if !agg.OtherAggregator? {
      forall i | 0 <= i < |Q|
        ensures var row := RowLabels(m, agg, k, F, T, Q)[i]; row.Ok? ==> |row.value| == Width(T)
      {
        RowLabelAt(m, agg, k, F, T, Q, i);
      }
    }
  }

  /** A prediction under a recognised aggregator succeeds when at least one
      neighbour is selected (for the mode, when the targets are also
      non-negative), and fails for want of neighbours when there are query
      rows but none is selected. */
  lemma PredictionSucceeds(m: Measure, agg: Aggregator, k: nat, F: Matrix, T: Matrix, Q: Matrix)
    requires !m.OtherMeasure? && !agg.OtherAggregator? && Aligned(F, T, Q)
    ensures k >= 1 && |F| >= 1 && (agg.Mode? ==> NonNegative(T)) ==>
      Prediction(m, agg, k, Some(F), Some(T), Q).Ok?
    ensures |Q| > 0 && (k == 0 || |F| == 0) ==>
      Prediction(m, agg, k, Some(F), Some(T), Q) == Err(NoNeighbours)
  {
    var rows := RowLabels(m, agg, k, F, T, Q);
    if k >= 1 && |F| >= 1 && (agg.Mode? ==> NonNegative(T)) {
      forall i | 0 <= i < |Q| ensures rows[i].Ok? {
        RowLabelAt(m, agg, k, F, T, Q, i);
        var P := Neighbourhood(m, k, F, T, Q[i]);
        var nb := NearestIndices(m, k, F, Q[i]);
        assert forall p :: 0 <= p < |P| ==> P[p] == T[nb[p]];
      }
    }
    if |Q| > 0 && (k == 0 || |F| == 0) {
      RowLabelAt(m, agg, k, F, T, Q, 0);
      var r := AllOk(rows);
      assert !rows[0].Ok?;
      var i :| 0 <= i < |rows| && rows[i] == Err(r.error);
      RowLabelAt(m, agg, k, F, T, Q, i);
    }
  }

  /** A mode prediction takes each label value from the target of one of
      the query's selected neighbours. */
  lemma ModeLabelsAreTargets(m: Measure, k: nat, F: Matrix, T: Matrix, Q: Matrix)
    requires !m.OtherMeasure? && Aligned(F, T, Q)
    ensures var r := Prediction(m, Mode, k, Some(F), Some(T), Q);
      r.Ok? ==> forall i, c :: 0 <= i < |Q| && 0 <= c < Width(T) ==>
        exists t :: t in NearestIndices(m, k, F, Q[i]) && t < |T| && r.value[i][c] == T[t][c] as real
  {
    var r := Prediction(m, Mode, k, Some(F), Some(T), Q);
    if r.Ok? {
      var rows := RowLabels(m, Mode, k, F, T, Q);
      forall i, c | 0 <= i < |Q| && 0 <= c < Width(T)
        ensures exists t :: t in NearestIndices(m, k, F, Q[i]) && t < |T| && r.value[i][c] == T[t][c] as real
      {
        assert rows[i].Ok? && r.value[i] == rows[i].value;
        NeighbourModeIsTarget(m, k, F, T, Q[i], c);
      }
    }
  }

  /** Column `c` of the mode label row of one query row, when there is one,
      is the target of one of the query's selected reference rows. */
  lemma NeighbourModeIsTarget(m: Measure, k: nat, F: Matrix, T: Matrix, q: Row, c: nat)
    requires !m.OtherMeasure? && |T| == |F| && Rectangular(T, Width(T)) && c < Width(T)
    ensures var row := RowLabel(Mode, Neighbourhood(m, k, F, T, q));
      row.Ok? ==>
        c < |row.value| &&
        exists t :: t in NearestIndices(m, k, F, q) && t < |T| && row.value[c] == T[t][c] as real
  {
    var P := Neighbourhood(m, k, F, T, q);
    var nb := NearestIndices(m, k, F, q);
    var row := RowLabel(Mode, P);
    if row.Ok? {
      RowLabelMeaning(Mode, P, Width(T));
      Aggregation.ColumnModesMeaning(P);
      var p :| 0 <= p < |P| && row.value[c] == P[p][c] as real;
      assert nb[p] in nb;
      assert P[p] == T[nb[p]];
    }
  }

  /** With one-wide targets, a successful mode prediction has one one-wide
      label row per query, each label the target of one of the query's
      selected neighbours. */
  lemma ModeLabelsOneWide(m: Measure, k: nat, F: Matrix, T: Matrix, Q: Matrix)
    requires !m.OtherMeasure? && Aligned(F, T, Q) && |T| > 0 && Width(T) == 1
    ensures var r := Prediction(m, Mode, k, Some(F), Some(T), Q);
      r.Ok? ==> |r.value| == |Q| && forall i :: 0 <= i < |Q| ==>
        |r.value[i]| == 1 && NearestTarget(m, k, F, T, Q[i], r.value[i][0])
  {
    var r := Prediction(m, Mode, k, Some(F), Some(T), Q);
    if r.Ok? {
      PredictionShape(m, Mode, k, F, T, Q);
      forall i | 0 <= i < |Q| ensures NearestTarget(m, k, F, T, Q[i], r.value[i][0]) {
        ModeLabelsAreTargets(m, k, F, T, Q);
        var t :| t in NearestIndices(m, k, F, Q[i]) && t < |T| && r.value[i][0] == T[t][0] as real;
      }
    }
  }

  /** `x` is the first target entry of one of the neighbours selected for `q`. */
  predicate NearestTarget(m: Measure, k: nat, F: Matrix, T: Matrix, q: Row, x: real)
    requires !m.OtherMeasure?
  {
    exists t :: t in NearestIndices(m, k, F, q) && t < |T| && 0 < |T[t]| && x == T[t][0] as real
  }

  /** With one neighbour, a query equal to exactly one reference row is
      predicted that row's own target (for the mode, when the target is
      non-negative). */
  lemma NearestSelfMatch(m: Measure, agg: Aggregator, F: Matrix, T: Matrix, q: Row, z: nat)
    requires m.Euclidean? || m.Manhattan?
    requires !agg.OtherAggregator? && Aligned(F, T, [q])
    requires z < |F| && F[z] == q && forall j :: 0 <= j < |F| && j != z ==> F[j] != q
    requires agg.Mode? ==> forall c :: 0 <= c < |T[z]| ==> T[z][c] >= 0
    ensures Prediction(m, agg, 1, Some(F), Some(T), [q])
            == Ok([seq(|T[z]|, c requires 0 <= c < |T[z]| => T[z][c] as real)])
  {
    var d := DistanceRow(m, q, F);
    forall j | 0 <= j < |F| ensures (d[j] == 0.0) == (j == z) && d[j] >= 0.0 {
      assert |q| == |F[j]| by { assert [q][0] == q; }
      if m.Euclidean? {
        Distances.SqEuclideanZeroIff(q, F[j]);
      } else {
        Distances.ManhattanZeroIff(q, F[j]);
      }
    }
    UniqueZeroIsNearest(d, z);
    var P := Neighbourhood(m, 1, F, T, q);
    assert P == [T[z]];
    Aggregation.SingleRowMeansMedians(T[z]);
    if agg.Mode? {
      Aggregation.SingleRowModes(T[z]);
    }
    var v := seq(|T[z]|, c requires 0 <= c < |T[z]| => T[z][c] as real);
    assert RowLabel(agg, P) == Ok(v);
    var rows := RowLabels(m, agg, 1, F, T, [q]);
    assert rows == [Ok(v)];
    assert AllOk(rows) == Ok([v]) by {
      assert rows[1..] == [];
      assert [v] + [] == [v];
    }
    assert Prediction(m, agg, 1, Some(F), Some(T), [q]) == AllOk(rows);
  }

  class KNearestNeighbor {
    const nNeighbors: nat
    const distanceMeasure: Measure
    const aggregator: Aggregator
    var features: Option<Matrix>
    var targets: Option<Matrix>

    /** A predictor with the given settings and no fitted data. */
    constructor (nNeighbors: nat, distanceMeasure: Measure := Euclidean, aggregator: Aggregator := Mode)
      ensures this.nNeighbors == nNeighbors
      ensures this.distanceMeasure == distanceMeasure && this.aggregator == aggregator
      ensures features == None && targets == None
    {
      this.nNeighbors := nNeighbors;
      this.distanceMeasure := distanceMeasure;
      this.aggregator := aggregator;
      features := None;
      targets := None;
    }

    /** Stores the reference features and targets, replacing any earlier ones. */
    method Fit(features: Matrix, targets: Matrix)
      modifies this
      ensures this.features == Some(features) && this.targets == Some(targets)
    {
      this.features := Some(features);
      this.targets := Some(targets);
    }

    /** One label row per query row (or none, for an unrecognised
        aggregator). `ignoreFirst` has no effect: the selection always
        starts at the nearest reference row. */
    method Predict(query: Matrix, ignoreFirst: bool := false) returns (labels: Result<LabelMatrix>)
      ensures labels == Prediction(distanceMeasure, aggregator, nNeighbors, features, targets, query)
    {
      if distanceMeasure.OtherMeasure? {
        return Err(UnknownMetric);
      }
      if features.None? || targets.None? {
        return Err(NotFitted);
      }
      var F, T := features.value, targets.value;
      if !Aligned(F, T, query) {
        return Err(ShapeMismatch);
      }
      var D := DistanceMatrix(distanceMeasure, query, F);
      var kIndex := seq(|query|, i requires 0 <= i < |query| reads D => Neighbours(RowOf(D, i), nNeighbors));
      assert forall i :: 0 <= i < |query| ==> kIndex[i] == NearestIndices(distanceMeasure, nNeighbors, F, query[i]);

      ghost var rows := if aggregator.OtherAggregator? then []
                        else RowLabels(distanceMeasure, aggregator, nNeighbors, F, T, query);
      var out: LabelMatrix := [];
      for i := 0 to |query|
        invariant aggregator.OtherAggregator? ==> out == []
        invariant !aggregator.OtherAggregator? ==> |out| == i
        invariant !aggregator.OtherAggregator? ==> forall h :: 0 <= h < i ==> rows[h].Ok? && out[h] == rows[h].value
      {
        var predict := GatherRows(T, kIndex[i]);
        if !aggregator.OtherAggregator? {
          var row := Aggregate(predict);
          assert row == rows[i] by {
            assert predict == Neighbourhood(distanceMeasure, nNeighbors, F, T, query[i]);
          }
          if row.Err? {
            AllOkFirstErr(rows, i);
            return Err(row.error);
          }
          ghost var prev := out;
          out := out + [row.value];
          forall h | 0 <= h < i + 1 ensures rows[h].Ok? && out[h] == rows[h].value {
            if h < i {
              assert out[h] == prev[h];
              assert rows[h].Ok?;
            } else {
              assert row.Ok?;
              assert rows[h] == row;
            }
          }
        }
      }
      if !aggregator.OtherAggregator? {
        AllOkValues(rows, out);
      }
      return Ok(out);
    }

    /** The label row of one neighbour label set under the configured,
        recognised aggregator. */
    method Aggregate(predict: Matrix) returns (row: Result<seq<real>>)
      requires !aggregator.OtherAggregator? && Rectangular(predict, Width(predict))
      ensures row == RowLabel(aggregator, predict)
    {
      if |predict| == 0 {
        row := Err(NoNeighbours);
      } else if aggregator.Mean? {
        row := Ok(Aggregation.ColumnMeans(predict));
      } else if aggregator.Mode? {
        row := ModeRow(predict);
      } else {
        row := Ok(Aggregation.ColumnMedians(predict));
      }
    }

    /** The target rows at the selected indices, appended one by one. */
    static method GatherRows(T: Matrix, idx: seq<nat>) returns (predict: Matrix)
      requires forall p :: 0 <= p < |idx| ==> idx[p] < |T|
      ensures predict == Gather(T, idx)
    {
      predict := [];
      for j := 0 to |idx|
        invariant predict == Gather(T, idx[..j])
      {
        predict := predict + [T[idx[j]]];
      }
      assert idx[..|idx|] == idx;
    }

    /** The per-column count-and-argmax of the neighbour label set, column
        by column, stopping at the first column whose count fails. */
    static method ModeRow(predict: Matrix) returns (row: Result<seq<real>>)
      requires |predict| > 0 && Rectangular(predict, |predict[0]|)
      ensures row == Aggregation.ColumnModes(predict)
    {
      ghost var cols := Aggregation.ModeResults(predict);
      var res: seq<real> := [];
      for col := 0 to |predict[0]|
        invariant |res| == col && forall h :: 0 <= h < col ==> cols[h].Ok? && res[h] == cols[h].value
      {
        var m := Aggregation.ModeColumn(Column(predict, col));
        if m.Err? {
          AllOkFirstErr(cols, col);
          return Err(m.error);
        }
        res := res + [m.value];
      }
      AllOkValues(cols, res);
      return Ok(res);
    }
  }
}

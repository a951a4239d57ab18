/** Optional values, the failures of prediction and imputation, and results
    that carry either a value or one of those failures. */
module Outcomes {

  datatype Option<T> = None | Some(value: T)

  /** Why a prediction or an imputation produced no value. */
  datatype Error =
    | UnknownMetric   // a distance measure other than euclidean, manhattan or cosine
    | NotFitted       // predict called before fit
    | ShapeMismatch   // query/reference widths differ, targets not aligned with features
    | NoNeighbours    // no reference row was selected for a query
    | NegativeLabel   // the mode of a column holding a negative (truncated) value
    | EmptyInput      // imputation of a matrix without rows

  datatype Result<T> = Ok(value: T) | Err(error: Error)

  /** Collects a sequence of results left to right: the values if every result
      is Ok, otherwise the first failure. */
  function AllOk<T>(rs: seq<Result<T>>): (r: Result<seq<T>>)
    ensures r.Ok? <==> forall i :: 0 <= i < |rs| ==> rs[i].Ok?
    ensures r.Ok? ==> |r.value| == |rs| && forall i :: 0 <= i < |rs| ==> r.value[i] == rs[i].value
    ensures r.Err? ==> exists i :: 0 <= i < |rs| && rs[i] == Err(r.error)
                                   && forall h :: 0 <= h < i ==> rs[h].Ok?
  {
    if |rs| == 0 then Ok([])
    else if rs[0].Err? then Err(rs[0].error)
    else
      match AllOk(rs[1..])
      case Err(e) =>
        assert exists i :: 1 <= i < |rs| && rs[i] == Err(e) && forall h :: 0 <= h < i ==> rs[h].Ok? by {
          var i :| 0 <= i < |rs[1..]| && rs[1..][i] == Err(e) && forall h :: 0 <= h < i ==> rs[1..][h].Ok?;
          assert forall h :: 1 <= h < i + 1 ==> rs[h] == rs[1..][h - 1];
        }
        Err(e)
      case Ok(vs) => Ok([rs[0].value] + vs)
  }

  /** A sequence of successes collects to exactly their values. */
  lemma AllOkValues<T>(rs: seq<Result<T>>, vs: seq<T>)
    requires |vs| == |rs| && forall h :: 0 <= h < |rs| ==> rs[h].Ok? && vs[h] == rs[h].value
    ensures AllOk(rs) == Ok(vs)
  {
    assert AllOk(rs).value == vs;
  }

  /** The first failure in a sequence of results is the failure of the
      whole collection. */
  lemma {:induction false} AllOkFirstErr<T>(rs: seq<Result<T>>, i: nat)
    requires i < |rs| && rs[i].Err? && forall h :: 0 <= h < i ==> rs[h].Ok?
    ensures AllOk(rs) == Err(rs[i].error)
  {
    if i > 0 {
      assert forall h :: 0 <= h < i - 1 ==> rs[1..][h] == rs[h + 1];
      AllOkFirstErr(rs[1..], i - 1);
    }
  }
}

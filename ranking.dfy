/** Ranking of reference rows by their distance to one query, and the
    selection of the nearest ones (the argsort and slice of
    code/k_nearest_neighbor.py). Rows at equal distance keep their original
    order, as a stable sort would leave them. */
module Ranking {

  /** Index `a` ranks strictly before index `b`: it is nearer, or it is as
      near and comes first. */
  predicate Before(d: seq<real>, a: nat, b: nat)
    requires a < |d| && b < |d|
  {
    d[a] < d[b] || (d[a] == d[b] && a < b)
  }

  /** `s` lists valid indices of `d` in strictly increasing rank. */
  predicate Ranked(d: seq<real>, s: seq<nat>)
  {
    (forall p :: 0 <= p < |s| ==> s[p] < |d|) &&
    (forall p, q :: 0 <= p < q < |s| ==> Before(d, s[p], s[q]))
  }

  /** Inserts index `x` into `s` before the first index it ranks before. */
  function Insert(d: seq<real>, x: nat, s: seq<nat>): (r: seq<nat>)
    requires x < |d| && forall p :: 0 <= p < |s| ==> s[p] < |d|
    ensures |r| == |s| + 1
    ensures forall y :: y in r <==> y == x || y in s
  {
    if s == [] || Before(d, x, s[0]) then [x] + s
    else
      assert s == [s[0]] + s[1..];
      [s[0]] + Insert(d, x, s[1..])
  }

  lemma {:induction false} InsertRanked(d: seq<real>, x: nat, s: seq<nat>)
    requires x < |d| && Ranked(d, s) && x !in s
    ensures Ranked(d, Insert(d, x, s))
  {
    if s == [] {
      RankedCons(d, x, s);
    } else if Before(d, x, s[0]) {
      forall q | 0 <= q < |s| ensures Before(d, x, s[q]) {
        if q > 0 {
          assert Before(d, s[0], s[q]);
        }
      }
      RankedCons(d, x, s);
    } else {
      assert s == [s[0]] + s[1..];
      var t := Insert(d, x, s[1..]);
      InsertRanked(d, x, s[1..]);
      assert x != s[0];
      forall q | 0 <= q < |t| ensures Before(d, s[0], t[q]) {
        assert t[q] in t;
        if t[q] != x {
          var p :| 0 <= p < |s[1..]| && s[1..][p] == t[q];
          assert s[p + 1] == t[q];
        }
      }
      RankedCons(d, s[0], t);
    }
  }

  /** An index that ranks before every entry of a ranked sequence can head it. */
  lemma RankedCons(d: seq<real>, x: nat, t: seq<nat>)
    requires x < |d| && Ranked(d, t)
    requires forall q :: 0 <= q < |t| ==> Before(d, x, t[q])
    ensures Ranked(d, [x] + t)
  {
    var r := [x] + t;
    forall p, q | 0 <= p < q < |r| ensures Before(d, r[p], r[q]) {
      if p == 0 {
        assert r[q] == t[q - 1];
      } else {
        assert r[p] == t[p - 1] && r[q] == t[q - 1];
      }
    }
  }

  /** The indices 0 .. n-1 of `d`, in rank order. */
  function RankPrefix(d: seq<real>, n: nat): (r: seq<nat>)
    requires n <= |d|
    ensures |r| == n && forall p :: 0 <= p < |r| ==> r[p] < n
  {
    if n == 0 then []
    else
      var s := RankPrefix(d, n - 1);
      var r := Insert(d, n - 1, s);
      assert forall p :: 0 <= p < |r| ==> r[p] in r;
      r
  }

  /** All indices of `d`, nearest first (argsort). */
  function Rank(d: seq<real>): (r: seq<nat>)
    ensures |r| == |d| && forall p :: 0 <= p < |r| ==> r[p] < |d|
  {
    RankPrefix(d, |d|)
  }

  lemma {:induction false} RankPrefixRanked(d: seq<real>, n: nat)
    requires n <= |d|
    ensures Ranked(d, RankPrefix(d, n))
  {
    if n > 0 {
      var s := RankPrefix(d, n - 1);
      assert Ranked(d, Insert(d, n - 1, s)) by {
        RankPrefixRanked(d, n - 1);
        InsertRanked(d, n - 1, s);
      }
      assert RankPrefix(d, n) == Insert(d, n - 1, s);
    }
  }

  /** Every index below `n` is among the first `n` ranked. */
  lemma {:induction false} RankPrefixCovers(d: seq<real>, n: nat)
    requires n <= |d|
    ensures forall y: nat :: y < n ==> y in RankPrefix(d, n)
  {
    if n > 0 {
      var s := RankPrefix(d, n - 1);
      var x: nat := n - 1;
      var r := Insert(d, x, s);
      RankPrefixCovers(d, x);
      assert RankPrefix(d, n) == r;
      forall y: nat | y < x ensures y in r {
        assert y in s;
      }
    }
  }

  function Min(a: nat, b: nat): nat { if a < b then a else b }

  /** The first `k` indices in rank order, or all of them when there are
      fewer than `k` (the slice [:, :k] of the sorted indices). */
  function Neighbours(d: seq<real>, k: nat): (r: seq<nat>)
    ensures |r| == Min(k, |d|) && forall p :: 0 <= p < |r| ==> r[p] < |d|
  {
    Rank(d)[..Min(k, |d|)]
  }

  /** The selected neighbours are min(k, |d|) distinct valid indices, in
      ascending distance, with ties in index order, and none is farther than
      any index that was not selected. */
  lemma NeighboursNearest(d: seq<real>, k: nat)
    ensures var r := Neighbours(d, k);
      && |r| == Min(k, |d|)
      && (forall p :: 0 <= p < |r| ==> r[p] < |d|)
      && (forall p, q :: 0 <= p < q < |r| ==> r[p] != r[q])
      && (forall p, q :: 0 <= p < q < |r| ==> d[r[p]] <= d[r[q]])
      && (forall p, q :: 0 <= p < q < |r| && d[r[p]] == d[r[q]] ==> r[p] < r[q])
      && (forall p, j :: 0 <= p < |r| && 0 <= j < |d| && j !in r ==> d[r[p]] <= d[j])
  {
    var s := Rank(d);
    var r := Neighbours(d, k);
    RankPrefixRanked(d, |d|);
    RankPrefixCovers(d, |d|);
    assert forall q :: 0 <= q < |r| ==> s[q] in r;
    forall p, j | 0 <= p < |r| && 0 <= j < |d| && j !in r ensures d[r[p]] <= d[j] {
      assert j in s;
      var q :| 0 <= q < |s| && s[q] == j;
      assert q >= |r|;
      assert Before(d, s[p], s[q]);
    }
  }

  /** A reference row strictly nearer than every other is the single
      nearest neighbour. */
  lemma UniqueNearest(d: seq<real>, z: nat)
    requires z < |d| && forall j :: 0 <= j < |d| && j != z ==> d[z] < d[j]
    ensures Neighbours(d, 1) == [z]
  {
    NeighboursNearest(d, 1);
    var r := Neighbours(d, 1);
    assert r == [r[0]];
    assert z in r;
  }

  /** A reference row at distance 0 that is the only one at distance 0 is
      the single nearest neighbour. */
  lemma UniqueZeroIsNearest(d: seq<real>, z: nat)
    requires z < |d| && d[z] == 0.0
    requires forall j :: 0 <= j < |d| && j != z ==> d[j] > 0.0
    ensures Neighbours(d, 1) == [z]
  {
    UniqueNearest(d, z);
  }
}

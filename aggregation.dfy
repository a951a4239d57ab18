/** The three ways to reduce the neighbours' target rows to one label,
    column by column (code/k_nearest_neighbor.py): the arithmetic mean, the
    median, and the most frequent value with ties going to the smallest
    (a count per value, then the first value with the largest count). */
module Aggregation {
  import opened Outcomes
  import opened Matrices

  // ----- mean -----

  function Sum(xs: seq<int>): int
  {
    if |xs| == 0 then 0 else xs[0] + Sum(xs[1..])
  }

  function Mean(xs: seq<int>): real
    requires |xs| > 0
  {
    Sum(xs) as real / |xs| as real
  }

  /** The least entry of a non-empty sequence. */
  function MinOf(xs: seq<int>): (r: int)
    requires |xs| > 0
    ensures r in xs && forall i :: 0 <= i < |xs| ==> r <= xs[i]
  {
    if |xs| == 1 then xs[0]
    else
      var m := MinOf(xs[1..]);
      assert forall i :: 1 <= i < |xs| ==> xs[i] == xs[1..][i - 1];
      if xs[0] <= m then xs[0] else m
  }

  /** The greatest entry of a non-empty sequence. */
  function MaxOf(xs: seq<int>): (r: int)
    requires |xs| > 0
    ensures r in xs && forall i :: 0 <= i < |xs| ==> xs[i] <= r
  {
    if |xs| == 1 then xs[0]
    else
      var m := MaxOf(xs[1..]);
      assert forall i :: 1 <= i < |xs| ==> xs[i] == xs[1..][i - 1];
      if xs[0] >= m then xs[0] else m
  }

  lemma {:induction false} SumBounds(xs: seq<int>, lo: int, hi: int)
    requires forall i :: 0 <= i < |xs| ==> lo <= xs[i] <= hi
    ensures |xs| * lo <= Sum(xs) <= |xs| * hi
  {
    if |xs| > 0 {
      assert forall i :: 0 <= i < |xs[1..]| ==> xs[1..][i] == xs[i + 1];
      SumBounds(xs[1..], lo, hi);
    }
  }

  /** The mean lies between the least and the greatest value. */
  lemma MeanBounds(xs: seq<int>)
    requires |xs| > 0
    ensures MinOf(xs) as real <= Mean(xs) <= MaxOf(xs) as real
  {
    SumBounds(xs, MinOf(xs), MaxOf(xs));
    QuotientBounds(Sum(xs), |xs|, MinOf(xs), MaxOf(xs));
  }

  lemma QuotientBounds(s: int, n: int, lo: int, hi: int)
    requires n > 0 && n * lo <= s <= n * hi
    ensures lo as real <= s as real / n as real <= hi as real
  {
    assert (s as real) >= (n as real) * (lo as real);
    assert (s as real) <= (n as real) * (hi as real);
  }

  /** The mean of values that are all equal is that value. */
  lemma MeanOfConstant(xs: seq<int>, c: int)
    requires |xs| > 0 && forall i :: 0 <= i < |xs| ==> xs[i] == c
    ensures Mean(xs) == c as real
  {
    SumBounds(xs, c, c);
    QuotientBounds(Sum(xs), |xs|, c, c);
  }

  // ----- median -----

  predicate Sorted(s: seq<int>)
  {
    forall p, q :: 0 <= p < q < |s| ==> s[p] <= s[q]
  }

  /** Inserts `x` into the sorted `s` before the first larger-or-equal value. */
  function InsertSorted(x: int, s: seq<int>): (r: seq<int>)
    requires Sorted(s)
    ensures |r| == |s| + 1 && forall y :: y in r <==> y == x || y in s
    ensures Sorted(r)
  {
    if s == [] || x <= s[0] then [x] + s
    else
      var t := InsertSorted(x, s[1..]);
      assert s == [s[0]] + s[1..];
      assert forall q :: 0 <= q < |t| ==> t[q] in t;
      [s[0]] + t
  }

  lemma {:induction false} InsertSortedMultiset(x: int, s: seq<int>)
    requires Sorted(s)
    ensures multiset(InsertSorted(x, s)) == multiset(s) + multiset{x}
  {
    if s != [] && x > s[0] {
      InsertSortedMultiset(x, s[1..]);
      assert s == [s[0]] + s[1..];
    }
  }

  /** Insertion sort: the values of `xs` in ascending order. */
  function SortInts(xs: seq<int>): (r: seq<int>)
    ensures multiset(r) == multiset(xs)
    ensures Sorted(r)
  {
    if |xs| == 0 then []
    else
      var t := SortInts(xs[1..]);
      InsertSortedMultiset(xs[0], t);
      assert xs == [xs[0]] + xs[1..];
      InsertSorted(xs[0], t)
  }

  /** The middle value of the sorted values, or the average of the two
      middle values when there is an even number of them. */
  function Median(xs: seq<int>): real
    requires |xs| > 0
  {
    var s := SortInts(xs);
    assert |s| == |multiset(s)| == |multiset(xs)| == |xs|;
    var n := |s|;
    if n % 2 == 1 then s[n / 2] as real
    else (s[n / 2 - 1] + s[n / 2]) as real / 2.0
  }

  /** How many values of `xs` are at most `m`. */
  function CountAtMost(xs: seq<int>, m: real): nat
  {
    if |xs| == 0 then 0
    else (if xs[0] as real <= m then 1 else 0) + CountAtMost(xs[1..], m)
  }

  /** How many values of `xs` are at least `m`. */
  function CountAtLeast(xs: seq<int>, m: real): nat
  {
    if |xs| == 0 then 0
    else (if xs[0] as real >= m then 1 else 0) + CountAtLeast(xs[1..], m)
  }

  lemma {:induction false} CountsOfInsert(x: int, s: seq<int>, m: real)
    requires Sorted(s)
    ensures CountAtMost(InsertSorted(x, s), m) == CountAtMost([x] + s, m)
    ensures CountAtLeast(InsertSorted(x, s), m) == CountAtLeast([x] + s, m)
  {
    if s != [] && x > s[0] {
      CountsOfInsert(x, s[1..], m);
      var t := [x] + s[1..];
      assert ([x] + s)[1..] == s;
      assert t[1..] == s[1..];
      assert ([s[0]] + t)[1..] == t;
      assert ([s[0]] + InsertSorted(x, s[1..]))[1..] == InsertSorted(x, s[1..]);
    }
  }

  /** Sorting does not change how many values lie on either side of `m`. */
  lemma {:induction false} CountsOfSort(xs: seq<int>, m: real)
    ensures CountAtMost(SortInts(xs), m) == CountAtMost(xs, m)
    ensures CountAtLeast(SortInts(xs), m) == CountAtLeast(xs, m)
  {
    if |xs| > 0 {
      CountsOfSort(xs[1..], m);
      CountsOfInsert(xs[0], SortInts(xs[1..]), m);
      assert ([xs[0]] + SortInts(xs[1..]))[1..] == SortInts(xs[1..]);
    }
  }

  lemma {:induction false} CountAtMostPrefix(s: seq<int>, m: real, j: nat)
    requires j <= |s| && forall i :: 0 <= i < j ==> s[i] as real <= m
    ensures CountAtMost(s, m) >= j
  {
    if j > 0 {
      assert forall i :: 0 <= i < j - 1 ==> s[1..][i] == s[i + 1];
      CountAtMostPrefix(s[1..], m, j - 1);
    }
  }

  lemma {:induction false} CountAtLeastSuffix(s: seq<int>, m: real, j: nat)
    requires j <= |s| && forall i :: j <= i < |s| ==> s[i] as real >= m
    ensures CountAtLeast(s, m) >= |s| - j
  {
    if |s| > 0 {
      assert forall i :: 0 <= i < |s| - 1 ==> s[1..][i] == s[i + 1];
      CountAtLeastSuffix(s[1..], m, if j == 0 then 0 else j - 1);
    }
  }

  /** At least half of the values are at most the median, and at least half
      are at least the median. */
  lemma MedianSplits(xs: seq<int>)
    requires |xs| > 0
    ensures 2 * CountAtMost(xs, Median(xs)) >= |xs|
    ensures 2 * CountAtLeast(xs, Median(xs)) >= |xs|
  {
    var s, m := SortInts(xs), Median(xs);
    SortedSplits(s, m);
    CountsOfSort(xs, m);
  }

  /** A middle value of sorted values splits them into two halves. */
  lemma SortedSplits(s: seq<int>, m: real)
    requires Sorted(s) && |s| > 0
    requires |s| % 2 == 1 ==> m == s[|s| / 2] as real
    requires |s| % 2 == 0 ==> s[|s| / 2 - 1] as real <= m <= s[|s| / 2] as real
    ensures 2 * CountAtMost(s, m) >= |s|
    ensures 2 * CountAtLeast(s, m) >= |s|
  {
    var n, h := |s|, |s| / 2;
    if n % 2 == 1 {
      assert forall i :: 0 <= i < h + 1 ==> s[i] <= s[h];
      CountAtMostPrefix(s, m, h + 1);
      assert forall i :: h <= i < n ==> s[h] <= s[i];
      CountAtLeastSuffix(s, m, h);
    } else {
      assert forall i :: 0 <= i < h ==> s[i] <= s[h - 1];
      CountAtMostPrefix(s, m, h);
      assert forall i :: h <= i < n ==> s[h] <= s[i];
      CountAtLeastSuffix(s, m, h);
    }
  }

  /** The first value of a sorted sequence is its least value. */
  lemma SortedHeadLeast(s: seq<int>, y: int)
    requires Sorted(s) && y in s
    ensures s[0] <= y
  {
    var i :| 0 <= i < |s| && s[i] == y;
  }

  /** The values of a sequence after its first, as a multiset. */
  lemma MultisetTail(s: seq<int>)
    requires |s| > 0
    ensures multiset(s[1..]) == multiset(s) - multiset{s[0]}
  {
    assert s == [s[0]] + s[1..];
  }

  /** Two sorted sequences with the same values are equal. */
  lemma {:induction false} SortedUnique(s: seq<int>, t: seq<int>)
    requires Sorted(s) && Sorted(t) && multiset(s) == multiset(t)
    ensures s == t
  {
    assert |s| == |multiset(s)| == |multiset(t)| == |t|;
    if |s| > 0 {
      assert s[0] == t[0] by {
        assert s[0] in multiset(t) && t[0] in multiset(s);
        SortedHeadLeast(t, s[0]);
        SortedHeadLeast(s, t[0]);
      }
      assert s[1..] == t[1..] by {
        MultisetTail(s);
        MultisetTail(t);
        SortedUnique(s[1..], t[1..]);
      }
      assert s == [s[0]] + s[1..] && t == [t[0]] + t[1..];
    }
  }

  /** The median depends only on the values, not on their order. */
  lemma MedianOfPermutation(xs: seq<int>, ys: seq<int>)
    requires |xs| > 0 && multiset(xs) == multiset(ys)
    ensures |ys| > 0 && Median(xs) == Median(ys)
  {
    assert |xs| == |multiset(xs)| == |multiset(ys)| == |ys|;
    SortedUnique(SortInts(xs), SortInts(ys));
  }

  // ----- mode -----

  /** How often `v` occurs in `vals`. */
  function Count(vals: seq<int>, v: int): nat
  {
    multiset(vals)[v]
  }

  /** Among 0 .. n-1, the first value with the largest count (the argmax of
      a count array of length n). */
  function FirstMostFrequent(vals: seq<int>, n: nat): (b: nat)
    requires n >= 1
    ensures b < n
    ensures forall u :: 0 <= u < n ==> Count(vals, u) <= Count(vals, b)
    ensures forall u :: 0 <= u < b ==> Count(vals, u) < Count(vals, b)
  {
    if n == 1 then 0
    else
      var b := FirstMostFrequent(vals, n - 1);
      if Count(vals, n - 1) > Count(vals, b) then n - 1 else b
  }

  /** The mode of non-negative integers: a value that occurs, occurs at
      least as often as any other, and is the smallest such value. */
  function ModeOf(vals: seq<int>): (r: nat)
    requires |vals| > 0 && forall i :: 0 <= i < |vals| ==> vals[i] >= 0
    ensures r in vals
    ensures forall v :: Count(vals, v) <= Count(vals, r)
    ensures forall v :: v < r ==> Count(vals, v) < Count(vals, r)
  {
    var top := MaxOf(vals);
    var b := FirstMostFrequent(vals, top + 1);
    assert forall v :: v in vals ==> 0 <= v <= top;
    assert Count(vals, vals[0]) >= 1 && Count(vals, vals[0]) <= Count(vals, b);
    b
  }

  /** The mode of one column; a negative value makes the count fail. */
  function ModeColumn(col: seq<int>): (r: Result<real>)
    requires |col| > 0
    ensures r.Err? <==> exists i :: 0 <= i < |col| && col[i] < 0
    ensures r.Err? ==> r.error == NegativeLabel
    ensures r.Ok? ==> r.value == ModeOf(col) as real
  {
    if forall i :: 0 <= i < |col| ==> col[i] >= 0 then Ok(ModeOf(col) as real)
    else Err(NegativeLabel)
  }

  // ----- one label row from the neighbours' target rows -----

  function ColumnMeans(P: Matrix): (r: seq<real>)
    requires |P| > 0 && Rectangular(P, |P[0]|)
    ensures |r| == |P[0]| && forall c :: 0 <= c < |r| ==> r[c] == Mean(Column(P, c))
  {
    seq(|P[0]|, c requires 0 <= c < |P[0]| => Mean(Column(P, c)))
  }

  function ColumnMedians(P: Matrix): (r: seq<real>)
    requires |P| > 0 && Rectangular(P, |P[0]|)
    ensures |r| == |P[0]| && forall c :: 0 <= c < |r| ==> r[c] == Median(Column(P, c))
  {
    seq(|P[0]|, c requires 0 <= c < |P[0]| => Median(Column(P, c)))
  }

  /** The mode of each column, in column order. */
  function ModeResults(P: Matrix): (rs: seq<Result<real>>)
    requires |P| > 0 && Rectangular(P, |P[0]|)
    ensures |rs| == |P[0]| && forall c :: 0 <= c < |rs| ==> rs[c] == ModeColumn(Column(P, c))
  {
    seq(|P[0]|, c requires 0 <= c < |P[0]| => ModeColumn(Column(P, c)))
  }

  function ColumnModes(P: Matrix): (r: Result<seq<real>>)
    requires |P| > 0 && Rectangular(P, |P[0]|)
  {
    AllOk(ModeResults(P))
  }

  /** Each column's mode is a value of that column that no other value
      outnumbers, the smallest such; with no negative value the modes exist. */
  lemma ColumnModesMeaning(P: Matrix)
    requires |P| > 0 && Rectangular(P, |P[0]|)
    ensures ColumnModes(P).Ok? <==> forall i, c :: 0 <= i < |P| && 0 <= c < |P[0]| ==> P[i][c] >= 0
    ensures ColumnModes(P).Ok? ==>
      var r := ColumnModes(P).value;
      |r| == |P[0]| &&
      forall c :: 0 <= c < |P[0]| ==>
        (exists i :: 0 <= i < |P| && r[c] == P[i][c] as real) &&
        (forall v: int :: Count(Column(P, c), v) <= Count(Column(P, c), r[c].Floor)) &&
        (forall v: int :: v < r[c].Floor ==> Count(Column(P, c), v) < Count(Column(P, c), r[c].Floor))
  {
    var rs := ModeResults(P);
    if forall i, c :: 0 <= i < |P| && 0 <= c < |P[0]| ==> P[i][c] >= 0 {
      assert forall c :: 0 <= c < |P[0]| ==> rs[c].Ok?;
      var r := ColumnModes(P).value;
      forall c | 0 <= c < |P[0]|
        ensures exists i :: 0 <= i < |P| && r[c] == P[i][c] as real
        ensures r[c].Floor == ModeOf(Column(P, c))
      {
        var col := Column(P, c);
        var m := ModeOf(col);
        assert r[c] == m as real;
        var i :| 0 <= i < |col| && col[i] == m;
        assert r[c] == P[i][c] as real;
      }
    } else {
      var i, c :| 0 <= i < |P| && 0 <= c < |P[0]| && P[i][c] < 0;
      assert Column(P, c)[i] < 0;
      assert rs[c].Err?;
    }
  }

  /** A single value is its own mean and its own median. */
  lemma SingleValue(x: int)
    ensures Mean([x]) == x as real && Median([x]) == x as real
  {
    assert Sum([x]) == x + Sum([x][1..]) && [x][1..] == [];
    assert SortInts([x]) == InsertSorted(x, SortInts([x][1..]));
  }

  /** A single neighbour label row is its own column mean and median. */
  lemma SingleRowMeansMedians(row: Row)
    ensures ColumnMeans([row]) == seq(|row|, c requires 0 <= c < |row| => row[c] as real)
    ensures ColumnMedians([row]) == seq(|row|, c requires 0 <= c < |row| => row[c] as real)
  {
    forall c | 0 <= c < |row|
      ensures Mean(Column([row], c)) == row[c] as real && Median(Column([row], c)) == row[c] as real
    {
      assert Column([row], c) == [row[c]];
      SingleValue(row[c]);
    }
  }

  /** A single neighbour label row of non-negative values is its own column mode. */
  lemma SingleRowModes(row: Row)
    requires forall c :: 0 <= c < |row| ==> row[c] >= 0
    ensures ColumnModes([row]) == Ok(seq(|row|, c requires 0 <= c < |row| => row[c] as real))
  {
    var P: Matrix := [row];
    assert forall i, c :: 0 <= i < |P| && 0 <= c < |P[0]| ==> P[i][c] >= 0 by {
      assert forall i :: 0 <= i < |P| ==> P[i] == row;
    }
    ColumnModesMeaning(P);
    var r := ColumnModes(P).value;
    forall c | 0 <= c < |row| ensures r[c] == row[c] as real {
      var i :| 0 <= i < |P| && r[c] == P[i][c] as real;
    }
    assert r == seq(|row|, c requires 0 <= c < |row| => row[c] as real);
  }

  /** Neighbour targets [[1,2,3],[2,3,4],[3,4,5]] have column means [2,3,4]. */
  lemma MeanExample()
    ensures ColumnMeans([[1, 2, 3], [2, 3, 4], [3, 4, 5]]) == [2.0, 3.0, 4.0]
  {
    var P: Matrix := [[1, 2, 3], [2, 3, 4], [3, 4, 5]];
    assert Column(P, 0) == [1, 2, 3] && Column(P, 1) == [2, 3, 4] && Column(P, 2) == [3, 4, 5];
    assert Sum([1, 2, 3]) == 6 && Sum([2, 3, 4]) == 9 && Sum([3, 4, 5]) == 12;
  }

  /** Neighbour targets [[1],[1],[2]] have mode [1]. */
  lemma ModeExample()
    ensures ColumnModes([[1], [1], [2]]) == Ok([1.0])
  {
    var P: Matrix := [[1], [1], [2]];
    var col := Column(P, 0);
    assert col == [1, 1, 2];
    assert ModeOf(col) == 1 by {
      assert Count(col, 1) == 2 && Count(col, 2) == 1 && Count(col, 0) == 0;
    }
    assert ModeResults(P)[0] == Ok(1.0);
    AllOkValues(ModeResults(P), [1.0]);
  }

}

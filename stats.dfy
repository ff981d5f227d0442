/** The column statistics the pipeline relies on: the median that polars computes
    over the non-null values of a column, and the most frequent value (mode). */
module Stats {
  import opened Frames

  ghost predicate Ascending(xs: seq<real>)
  {
    forall i, j :: 0 <= i < j < |xs| ==> xs[i] <= xs[j]
  }

  function Insert(x: real, xs: seq<real>): (r: seq<real>)
    requires Ascending(xs)
    ensures Ascending(r)
    ensures multiset(r) == multiset(xs) + multiset{x}
  {
    if xs == [] || x <= xs[0] then [x] + xs
    else
      var rest := Insert(x, xs[1..]);
      assert xs == [xs[0]] + xs[1..];
      HeadIsLeast(xs);
      LeastPrepended(xs[0], rest, multiset(xs[1..]) + multiset{x});
      [xs[0]] + rest
  }

  lemma HeadIsLeast(xs: seq<real>)
    requires Ascending(xs) && xs != []
    ensures forall z :: z in multiset(xs[1..]) ==> xs[0] <= z
  {
    forall z | z in multiset(xs[1..]) ensures xs[0] <= z {
      assert z in xs[1..];
    }
  }

  lemma LeastPrepended(y: real, s: seq<real>, m: multiset<real>)
    requires Ascending(s) && multiset(s) == m
    requires forall z :: z in m ==> y <= z
    ensures Ascending([y] + s)
  {
    forall i | 0 <= i < |s| ensures y <= s[i] {
      assert s[i] in multiset(s);
    }
  }

  /** The values in ascending order. */
  function Sort(xs: seq<real>): (r: seq<real>)
    ensures Ascending(r)
    ensures multiset(r) == multiset(xs)
  {
    if xs == [] then []
    else
      assert xs == [xs[0]] + xs[1..];
      Insert(xs[0], Sort(xs[1..]))
  }

  /** `Series.median()`: the middle value of the sorted values, or the mean of the
      two middle ones for an even count; null when there are no values. */
  function Median(xs: seq<real>): (m: Option<real>)
    ensures m.Some? <==> |xs| > 0
  {
    var s := Sort(xs);
    assert |s| == |multiset(s)| == |multiset(xs)| == |xs|;
    if |s| == 0 then None
    else if |s| % 2 == 1 then Some(s[|s| / 2])
    else Some((s[|s| / 2 - 1] + s[|s| / 2]) / 2.0)
  }

  /** A median never leaves an interval that holds all the values. */
  lemma MedianWithin(xs: seq<real>, lo: real, hi: real)
    requires forall k :: 0 <= k < |xs| ==> lo <= xs[k] <= hi
    ensures Median(xs).Some? ==> lo <= Median(xs).value <= hi
  {
    var s := Sort(xs);
    assert |s| == |multiset(s)| == |multiset(xs)| == |xs|;
    forall k | 0 <= k < |s| ensures lo <= s[k] <= hi {
      assert s[k] in multiset(s);
      assert s[k] in multiset(xs);
      var j :| 0 <= j < |xs| && xs[j] == s[k];
    }
  }

  /** Scans the first `n` cells and returns the index of the first cell whose value
      occurs most often in the whole column. */
  function ModeIndex<T(==)>(s: seq<T>, n: nat): (k: nat)
    requires 0 < n <= |s|
    ensures k < n
    ensures forall j :: 0 <= j < n ==> multiset(s)[s[j]] <= multiset(s)[s[k]]
    ensures forall j :: 0 <= j < k ==> multiset(s)[s[j]] < multiset(s)[s[k]]
  {
    if n == 1 then 0
    else
      var k := ModeIndex(s, n - 1);
      if multiset(s)[s[n - 1]] > multiset(s)[s[k]] then n - 1 else k
  }

  /** `Series.mode()[0]`, nulls counted as a value like any other; polars leaves the
      order among equally frequent values unspecified, and this model takes the
      first encountered. None for an empty column. */
  function Mode<T(==)>(s: seq<T>): (m: Option<T>)
    ensures m.Some? <==> |s| > 0
    ensures m.Some? ==> m.value in s && forall v :: v in s ==> multiset(s)[v] <= multiset(s)[m.value]
  {
    if |s| == 0 then None
    else
      var k := ModeIndex(s, |s|);
      assert forall v :: v in s ==> exists j :: 0 <= j < |s| && s[j] == v;
      Some(s[k])
  }
}

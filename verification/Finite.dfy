/** Counting facts about finite sets and sequences shared by the other modules. */
module Finite {

  ghost predicate Distinct<T>(s: seq<T>) {
    forall i, j :: 0 <= i < j < |s| ==> s[i] != s[j]
  }

  ghost function Elements<T>(s: seq<T>): set<T> {
    set x | x in s
  }

  lemma SubsetSize<T>(a: set<T>, b: set<T>)
    requires a <= b
    ensures |a| <= |b|
    ensures |a| == |b| ==> a == b
  {
    assert b == a + (b - a);
  }

  lemma {:induction false} DistinctSize<T>(s: seq<T>)
    requires Distinct(s)
    ensures |Elements(s)| == |s|
  {
    if s != [] {
      var t := s[1..];
      DistinctSize(t);
      assert Elements(s) == {s[0]} + Elements(t);
      assert s[0] !in t;
    }
  }

  /** The integers from `lo` up to, not including, `hi`. */
  ghost function Interval(lo: int, hi: int): (s: set<int>)
    requires lo <= hi
    ensures forall v :: v in s <==> lo <= v < hi
    ensures |s| == hi - lo
    decreases hi - lo
  {
    if lo == hi then {} else Interval(lo, hi - 1) + {hi - 1}
  }

  /** Distinct numbers below `m` are at most `m` many. */
  lemma Pigeonhole(p: seq<nat>, m: nat)
    requires Distinct(p)
    requires forall i :: 0 <= i < |p| ==> p[i] < m
    ensures |p| <= m
  {
    DistinctSize(p);
    SubsetSize(Elements(p), Interval(0, m));
  }
}

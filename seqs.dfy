/** Sequence helpers shared by the other modules. */
module Seqs {

  /** The naturals lo, lo + 1, ..., hi - 1, in increasing order. */
  function Range(lo: nat, hi: nat): (r: seq<nat>)
    ensures forall x :: x in r <==> lo <= x < hi
    decreases hi - lo
  {
    if lo >= hi then [] else [lo] + Range(lo + 1, hi)
  }

  /** The elements of s that satisfy p, in their original order (jQuery's `.filter`). */
  function Filter<T(==, !new)>(s: seq<T>, p: T -> bool): (r: seq<T>)
    ensures |r| <= |s|
    ensures forall x :: x in r <==> x in s && p(x)
  {
    if s == [] then [] else (if p(s[0]) then [s[0]] else []) + Filter(s[1..], p)
  }

  /** Counting the survivors of a filter: all of s survives exactly when every element passes. */
  lemma {:induction false} FilterKeepsAll<T(!new)>(s: seq<T>, p: T -> bool)
    ensures |Filter(s, p)| == |s| <==> forall x :: x in s ==> p(x)
  {
    if s != [] {
      FilterKeepsAll(s[1..], p);
      assert forall x :: x in s <==> x == s[0] || x in s[1..];
    }
  }

  /** A filter with at least one survivor has a witness. */
  lemma FilterNonEmpty<T(!new)>(s: seq<T>, p: T -> bool)
    ensures |Filter(s, p)| > 0 <==> exists x :: x in s && p(x)
  {
    if |Filter(s, p)| > 0 {
      assert Filter(s, p)[0] in Filter(s, p);
    }
  }

  /** A filter keeps the relative order of its survivors: a relation holding between earlier and later elements of s holds in the result. */
  lemma {:induction false} FilterKeepsOrder<T(!new)>(s: seq<T>, p: T -> bool, before: (T, T) -> bool)
    requires forall i, j :: 0 <= i < j < |s| ==> before(s[i], s[j])
    ensures forall i, j :: 0 <= i < j < |Filter(s, p)| ==> before(Filter(s, p)[i], Filter(s, p)[j])
  {
    if s != [] {
      var tail := s[1..];
      TailKeepsOrder(s, before);
      FilterKeepsOrder(tail, p, before);
      var rest := Filter(tail, p);
      if p(s[0]) {
        HeadBeforeFiltered(s, p, before);
        ConsKeepsOrder(s[0], rest, before);
        assert Filter(s, p) == [s[0]] + rest;
      } else {
        assert Filter(s, p) == rest;
      }
    }
  }

  lemma ConsKeepsOrder<T>(h: T, rest: seq<T>, before: (T, T) -> bool)
    requires forall j :: 0 <= j < |rest| ==> before(h, rest[j])
    requires forall i, j :: 0 <= i < j < |rest| ==> before(rest[i], rest[j])
    ensures forall i, j :: 0 <= i < j < |[h] + rest| ==> before(([h] + rest)[i], ([h] + rest)[j])
  {
    var r := [h] + rest;
    forall i, j | 0 <= i < j < |r| ensures before(r[i], r[j]) {
      if i == 0 {
        assert r[j] == rest[j - 1];
      } else {
        assert r[i] == rest[i - 1] && r[j] == rest[j - 1];
      }
    }
  }

  lemma TailKeepsOrder<T>(s: seq<T>, before: (T, T) -> bool)
    requires s != []
    requires forall i, j :: 0 <= i < j < |s| ==> before(s[i], s[j])
    ensures forall i, j :: 0 <= i < j < |s[1..]| ==> before(s[1..][i], s[1..][j])
  {
    forall i, j | 0 <= i < j < |s[1..]| ensures before(s[1..][i], s[1..][j]) {
      assert s[1..][i] == s[i + 1] && s[1..][j] == s[j + 1];
    }
  }

  lemma HeadBeforeFiltered<T(!new)>(s: seq<T>, p: T -> bool, before: (T, T) -> bool)
    requires s != []
    requires forall i, j :: 0 <= i < j < |s| ==> before(s[i], s[j])
    ensures forall j :: 0 <= j < |Filter(s[1..], p)| ==> before(s[0], Filter(s[1..], p)[j])
  {
    var rest := Filter(s[1..], p);
    forall j | 0 <= j < |rest| ensures before(s[0], rest[j]) {
      assert rest[j] in rest;
      var k :| 0 <= k < |s[1..]| && s[1..][k] == rest[j];
      assert s[1..][k] == s[k + 1];
    }
  }

  function SetOf<T(==, !new)>(s: seq<T>): set<T>
  {
    set x | x in s
  }
}

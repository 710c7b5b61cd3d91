/** Style selections and the ordering the store keeps them in.

    A selection styles the half-open character range [start, end) of the text.
    The store compares selections by their bounds only: two selections are
    "identical-bound" when both start and end agree, and they overlap unless one
    lies entirely on one side of the other.  Selections are kept sorted by start
    with the stable sort of the JavaScript runtime, modelled here by a stable
    insertion sort. */
module Selections {

  datatype Option<T> = None | Some(value: T)

  datatype Selection = Selection(
    start: int,
    end: int,
    fgColor: string,
    bgColor: string,
    bold: bool,
    underline: bool)

  predicate SameBounds(a: Selection, b: Selection) {
    a.start == b.start && a.end == b.end
  }

  /** The overlap test of addSelection: `a` ends before `b` starts or starts after `b` ends. */
  predicate NoOverlap(a: Selection, b: Selection) {
    a.end <= b.start || a.start >= b.end
  }

  /** Two entries of a consistent selection list: disjoint and not identical-bound. */
  predicate Apart(a: Selection, b: Selection) {
    NoOverlap(a, b) && !SameBounds(a, b)
  }

  /** Every two entries at different positions are apart. */
  predicate Pairwise(s: seq<Selection>) {
    forall i, j :: 0 <= i < |s| && 0 <= j < |s| && i != j ==> Apart(s[i], s[j])
  }

  predicate SortedByStart(s: seq<Selection>) {
    forall i, j :: 0 <= i < j < |s| ==> s[i].start <= s[j].start
  }

  /** Stable insertion of `x` into `t`: `x` goes after every entry whose start is not larger. */
  function Insert(t: seq<Selection>, x: Selection): (r: seq<Selection>)
    ensures |r| == |t| + 1
    decreases |t|
  {
    if t == [] || t[|t| - 1].start <= x.start then t + [x]
    else Insert(t[..|t| - 1], x) + [t[|t| - 1]]
  }

  /** The result of `sort((a, b) => a.start - b.start)`: a stable sort by start. */
  function Sort(s: seq<Selection>): (r: seq<Selection>)
    ensures |r| == |s|
    decreases |s|
  {
    if s == [] then [] else Insert(Sort(s[..|s| - 1]), s[|s| - 1])
  }

  lemma SortedSnoc(u: seq<Selection>, z: Selection)
    requires SortedByStart(u)
    requires forall y :: y in u ==> y.start <= z.start
    ensures SortedByStart(u + [z])
  {
    var w := u + [z];
    forall i, j | 0 <= i < j < |w| ensures w[i].start <= w[j].start {
      if j == |u| { assert w[i] in u; }
    }
  }

  lemma PairwiseSnoc(u: seq<Selection>, z: Selection)
    requires Pairwise(u)
    requires forall y :: y in u ==> Apart(y, z)
    ensures Pairwise(u + [z])
  {
    var w := u + [z];
    forall i, j | 0 <= i < |w| && 0 <= j < |w| && i != j ensures Apart(w[i], w[j]) {
      if i == |u| { assert w[j] in u; }
      else if j == |u| { assert w[i] in u; }
    }
  }

  lemma PairwisePrefix(s: seq<Selection>, k: nat)
    requires Pairwise(s) && k <= |s|
    ensures Pairwise(s[..k])
  {
    var p := s[..k];
    forall i, j | 0 <= i < |p| && 0 <= j < |p| && i != j ensures Apart(p[i], p[j]) {
      assert p[i] == s[i] && p[j] == s[j];
    }
  }

  lemma {:induction false} InsertPermutes(t: seq<Selection>, x: Selection)
    ensures multiset(Insert(t, x)) == multiset(t) + multiset{x}
    decreases |t|
  {
    if t == [] || t[|t| - 1].start <= x.start {
    } else {
      var init, last := t[..|t| - 1], t[|t| - 1];
      InsertPermutes(init, x);
      assert t == init + [last];
    }
  }

  lemma {:induction false} InsertSorted(t: seq<Selection>, x: Selection)
    requires SortedByStart(t)
    ensures SortedByStart(Insert(t, x))
    decreases |t|
  {
    if t == [] || t[|t| - 1].start <= x.start {
      SortedSnoc(t, x);
    } else {
      var init, last := t[..|t| - 1], t[|t| - 1];
      InsertSorted(init, x);
      InsertPermutes(init, x);
      var u := Insert(init, x);
      forall y | y in u ensures y.start <= last.start {
        assert y in multiset(u);
        if y != x {
          assert y in multiset(init);
          var k :| 0 <= k < |init| && init[k] == y;
          assert t[k] == y;
        }
      }
      SortedSnoc(u, last);
    }
  }

  lemma {:induction false} InsertPairwise(t: seq<Selection>, x: Selection)
    requires Pairwise(t)
    requires forall y :: y in t ==> Apart(y, x)
    ensures Pairwise(Insert(t, x))
    decreases |t|
  {
    if t == [] || t[|t| - 1].start <= x.start {
      PairwiseSnoc(t, x);
    } else {
      var init, last := t[..|t| - 1], t[|t| - 1];
      PairwisePrefix(t, |t| - 1);
      forall y | y in init ensures Apart(y, x) { assert y in t; }
      InsertPairwise(init, x);
      InsertPermutes(init, x);
      var u := Insert(init, x);
      forall y | y in u ensures Apart(y, last) {
        assert y in multiset(u);
        if y == x {
          assert last in t;
        } else {
          assert y in multiset(init);
          var k :| 0 <= k < |init| && init[k] == y;
          assert t[k] == y && Apart(t[k], t[|t| - 1]);
        }
      }
      PairwiseSnoc(u, last);
    }
  }

  /** Sorting only reorders: the result holds the same entries with the same multiplicities. */
  lemma {:induction false} SortPermutes(s: seq<Selection>)
    ensures multiset(Sort(s)) == multiset(s)
    decreases |s|
  {
    if s != [] {
      var init, last := s[..|s| - 1], s[|s| - 1];
      SortPermutes(init);
      InsertPermutes(Sort(init), last);
      assert s == init + [last];
    }
  }

  /** The result of sorting is ascending by start. */
  lemma {:induction false} SortSorted(s: seq<Selection>)
    ensures SortedByStart(Sort(s))
    decreases |s|
  {
    if s != [] {
      SortSorted(s[..|s| - 1]);
      InsertSorted(Sort(s[..|s| - 1]), s[|s| - 1]);
    }
  }

  /** Sorting a consistent list keeps it consistent. */
  lemma {:induction false} SortPairwise(s: seq<Selection>)
    requires Pairwise(s)
    ensures Pairwise(Sort(s))
    decreases |s|
  {
    if s != [] {
      var init, last := s[..|s| - 1], s[|s| - 1];
      PairwisePrefix(s, |s| - 1);
      SortPairwise(init);
      SortPermutes(init);
      forall y | y in Sort(init) ensures Apart(y, last) {
        assert y in multiset(init);
        var k :| 0 <= k < |init| && init[k] == y;
        assert s[k] == y && Apart(s[k], s[|s| - 1]);
      }
      InsertPairwise(Sort(init), last);
    }
  }

  /** A list that is already sorted by start comes back from the sort unchanged. */
  lemma {:induction false} SortOfSorted(s: seq<Selection>)
    requires SortedByStart(s)
    ensures Sort(s) == s
    decreases |s|
  {
    if s != [] {
      var init, last := s[..|s| - 1], s[|s| - 1];
      assert SortedByStart(init);
      SortOfSorted(init);
      assert s == init + [last];
    }
  }

  lemma SwapLeft(t: seq<Selection>, x: Selection, rest: seq<Selection>, j: nat)
    requires 0 < j <= |t|
    ensures var r := t[..j] + [x] + t[j..] + rest;
      r[j - 1 := r[j]][j := r[j - 1]] == t[..j - 1] + [x] + t[j - 1..] + rest
  {
    var r := t[..j] + [x] + t[j..] + rest;
    var w := r[j - 1 := r[j]][j := r[j - 1]];
    var v := t[..j - 1] + [x] + t[j - 1..] + rest;
    assert |w| == |v|;
    forall k | 0 <= k < |w| ensures w[k] == v[k] {
      if k < j - 1 {
      } else if k == j - 1 {
      } else if k == j {
      } else {
        assert w[k] == r[k];
      }
    }
  }

  lemma InsertPast(t: seq<Selection>, x: Selection, j: nat)
    requires 0 < j <= |t| && t[j - 1].start > x.start
    ensures Insert(t[..j], x) + t[j..] == Insert(t[..j - 1], x) + t[j - 1..]
  {
    assert t[..j][..j - 1] == t[..j - 1];
    assert Insert(t[..j], x) == Insert(t[..j - 1], x) + [t[j - 1]];
    assert t[j - 1..] == [t[j - 1]] + t[j..];
  }

  lemma InsertHere(t: seq<Selection>, x: Selection, j: nat)
    requires j <= |t| && (j == 0 || t[j - 1].start <= x.start)
    ensures Insert(t[..j], x) == t[..j] + [x]
  {
  }

  /** One pass of the insertion sort: moves `r0[i]` leftwards past every entry
      of the prefix `r0[..i]` with a larger start. */
  method SiftLeft(r0: seq<Selection>, i: nat) returns (r: seq<Selection>)
    requires i < |r0|
    ensures |r| == |r0|
    ensures r[..i + 1] == Insert(r0[..i], r0[i])
    ensures r[i + 1..] == r0[i + 1..]
  {
    ghost var t, rest := r0[..i], r0[i + 1..];
    var x := r0[i];
    r := r0;
    var j := i;
    assert r == t[..j] + [x] + t[j..] + rest by {
      assert r0 == r0[..i] + [x] + r0[i + 1..];
      assert t[..j] == t && t[j..] == [];
    }
    assert Insert(t, x) == Insert(t[..j], x) + t[j..] by {
      assert t[..j] == t && t[j..] == [];
    }
    while 0 < j && r[j - 1].start > r[j].start
      invariant 0 <= j <= i
      invariant r == t[..j] + [x] + t[j..] + rest
      invariant Insert(t, x) == Insert(t[..j], x) + t[j..]
    {
      assert r[j - 1] == t[j - 1] && r[j] == x;
      InsertPast(t, x, j);
      SwapLeft(t, x, rest, j);
      r := r[j - 1 := r[j]][j := r[j - 1]];
      j := j - 1;
    }
    assert j == 0 || r[j - 1] == t[j - 1];
    InsertHere(t, x, j);
    assert r == (t[..j] + [x] + t[j..]) + rest;
  }

  /** The array sort `sort((a, b) => a.start - b.start)`, as an insertion sort. */
  method SortByStart(s: seq<Selection>) returns (r: seq<Selection>)
    ensures r == Sort(s)
    ensures SortedByStart(r) && multiset(r) == multiset(s)
  {
    r := s;
    var i := 0;
    while i < |r|
      invariant |r| == |s| && 0 <= i <= |s|
      invariant r[..i] == Sort(s[..i])
      invariant r[i..] == s[i..]
    {
      ghost var prev := r;
      r := SiftLeft(r, i);
      assert r[..i + 1] == Sort(s[..i + 1]) by {
        assert s[..i + 1][..i] == s[..i];
        assert prev[i] == prev[i..][0] == s[i..][0] == s[i];
      }
      assert r[i + 1..] == s[i + 1..] by {
        assert prev[i + 1..] == prev[i..][1..];
        assert s[i + 1..] == s[i..][1..];
      }
      i := i + 1;
    }
    assert r == r[..i] && s == s[..i];
    SortSorted(s);
    SortPermutes(s);
  }
}

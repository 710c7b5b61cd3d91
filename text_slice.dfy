/** The text store: the record of text, default and current styles, and the
    list of style selections, with its reducers as methods of a class.

    addSelection keeps the selection list consistent: it drops every stored
    selection that overlaps the new one (whole, never clipped) except one with
    identical bounds, overwrites the identical-bound entry or appends, and sorts
    by start.  Every reachable store satisfies `Valid()`: the list is sorted by
    start and any two entries are disjoint and not identical-bound. */
module TextSlice {
  import opened Selections

  /** The payload of addSelection; `None` stands for a flag the caller left undefined. */
  datatype Payload = Payload(
    start: int,
    end: int,
    fgColor: string,
    bgColor: string,
    bold: Option<bool>,
    underline: Option<bool>)

  const DefaultFg: string := "#ffffff"
  const DefaultBg: string := "#36393f"
  const WelcomeText: string := "Welcome to Discord Text Generator!"

  /** The selection addSelection stores: flags the payload leaves undefined come from the current flags. */
  function Normalize(p: Payload, currentBold: bool, currentUnderline: bool): (n: Selection)
    ensures n.start == p.start && n.end == p.end
    ensures n.fgColor == p.fgColor && n.bgColor == p.bgColor
    ensures p.bold.Some? ==> n.bold == p.bold.value
    ensures p.bold.None? ==> n.bold == currentBold
    ensures p.underline.Some? ==> n.underline == p.underline.value
    ensures p.underline.None? ==> n.underline == currentUnderline
  {
    Selection(p.start, p.end, p.fgColor, p.bgColor,
              if p.bold.Some? then p.bold.value else currentBold,
              if p.underline.Some? then p.underline.value else currentUnderline)
  }

  /** The filter predicate of addSelection: a stored selection survives when it
      does not overlap the new one or has exactly its bounds. */
  predicate Survives(sel: Selection, n: Selection) {
    NoOverlap(n, sel) || SameBounds(n, sel)
  }

  /** `selections.filter(...)` with the Survives predicate, order preserved. */
  function KeepSurvivors(s: seq<Selection>, n: Selection): (r: seq<Selection>)
    ensures |r| <= |s|
    ensures forall x :: x in r <==> x in s && Survives(x, n)
    decreases |s|
  {
    if s == [] then []
    else
      var init, last := s[..|s| - 1], s[|s| - 1];
      assert s == init + [last];
      KeepSurvivors(init, n) + (if Survives(last, n) then [last] else [])
  }

  /** `findIndex` of the first entry with the bounds of `n`, or -1. */
  function FindIndex(s: seq<Selection>, n: Selection): (k: int)
    ensures -1 <= k < |s|
    ensures k == -1 <==> forall i :: 0 <= i < |s| ==> !SameBounds(s[i], n)
    ensures k != -1 ==> SameBounds(s[k], n) && forall i :: 0 <= i < k ==> !SameBounds(s[i], n)
    decreases |s|
  {
    if s == [] then -1
    else if SameBounds(s[0], n) then 0
    else
      var k := FindIndex(s[1..], n);
      if k == -1 then -1 else k + 1
  }

  /** The list after the filter and the update-or-push, before sorting.  Spreading
      the fully populated new selection over the identical-bound entry overwrites
      every one of its fields, so that entry becomes the new selection. */
  function Placed(s: seq<Selection>, n: Selection): seq<Selection> {
    var kept := KeepSurvivors(s, n);
    var k := FindIndex(kept, n);
    if k != -1 then kept[k := n] else kept + [n]
  }

  /** The selection list after addSelection of the (normalized) selection `n`. */
  function Added(s: seq<Selection>, n: Selection): seq<Selection> {
    Sort(Placed(s, n))
  }

  lemma PairwiseSurvivors(s: seq<Selection>, n: Selection)
    requires Pairwise(s)
    ensures Pairwise(KeepSurvivors(s, n))
    decreases |s|
  {
    if s != [] {
      var init, last := s[..|s| - 1], s[|s| - 1];
      PairwisePrefix(s, |s| - 1);
      PairwiseSurvivors(init, n);
      if Survives(last, n) {
        forall y | y in KeepSurvivors(init, n) ensures Apart(y, last) {
          var k :| 0 <= k < |init| && init[k] == y;
          assert s[k] == y && Apart(s[k], s[|s| - 1]);
        }
        PairwiseSnoc(KeepSurvivors(init, n), last);
      }
    }
  }

  lemma PairwisePlaced(s: seq<Selection>, n: Selection)
    requires Pairwise(s)
    ensures Pairwise(Placed(s, n))
  {
    var kept := KeepSurvivors(s, n);
    PairwiseSurvivors(s, n);
    var k := FindIndex(kept, n);
    if k != -1 {
      var p := kept[k := n];
      forall i, j | 0 <= i < |p| && 0 <= j < |p| && i != j ensures Apart(p[i], p[j]) {
        if i == k {
          assert kept[j] in s && Apart(kept[k], kept[j]);
        } else if j == k {
          assert kept[i] in s && Apart(kept[i], kept[k]);
        }
      }
    } else {
      forall y | y in kept ensures Apart(y, n) {
        var i :| 0 <= i < |kept| && kept[i] == y;
      }
      PairwiseSnoc(kept, n);
    }
  }

  /** Every entry of the placed list is the new selection or a survivor of the filter. */
  lemma PlacedMembers(s: seq<Selection>, n: Selection)
    ensures n in Placed(s, n)
    ensures forall x :: x in Placed(s, n) ==> x == n || (x in s && Survives(x, n))
  {
    var kept := KeepSurvivors(s, n);
    var k := FindIndex(kept, n);
    if k != -1 {
      var p := kept[k := n];
      assert p[k] == n;
      forall x | x in p ensures x == n || (x in s && Survives(x, n)) {
        var i :| 0 <= i < |p| && p[i] == x;
        if i != k { assert x in kept; }
      }
    }
  }

  /** After addSelection no stored selection overlaps the new one unless its
      bounds are identical, and the new selection is stored. */
  lemma AddSeparates(s: seq<Selection>, n: Selection)
    ensures n in Added(s, n)
    ensures forall x :: x in Added(s, n) ==> NoOverlap(n, x) || SameBounds(n, x)
  {
    PlacedMembers(s, n);
    SortPermutes(Placed(s, n));
    forall x | x in Added(s, n) ensures NoOverlap(n, x) || SameBounds(n, x) {
      assert x in multiset(Added(s, n));
      assert x in Placed(s, n);
    }
    assert n in multiset(Placed(s, n));
  }

  /** addSelection keeps the store invariant: sorted by start and pairwise apart. */
  lemma AddKeepsInvariant(s: seq<Selection>, n: Selection)
    requires Pairwise(s)
    ensures SortedByStart(Added(s, n)) && Pairwise(Added(s, n))
  {
    PairwisePlaced(s, n);
    SortSorted(Placed(s, n));
    SortPairwise(Placed(s, n));
  }

  /** From a consistent list, exactly one entry has the new selection's bounds
      after addSelection, and it is the new selection. */
  lemma AddExactlyOne(s: seq<Selection>, n: Selection)
    requires Pairwise(s)
    ensures var r := Added(s, n);
      exists i :: 0 <= i < |r| && r[i] == n && forall j :: 0 <= j < |r| && SameBounds(r[j], n) ==> j == i
  {
    var r := Added(s, n);
    AddSeparates(s, n);
    AddKeepsInvariant(s, n);
    var i :| 0 <= i < |r| && r[i] == n;
    forall j | 0 <= j < |r| && SameBounds(r[j], n) ensures j == i {
      assert !Apart(r[i], r[j]);
    }
  }

  /** Nothing else changes: every stored selection apart from the new one
      survives unchanged, and every entry after addSelection is the new
      selection or was stored before. */
  lemma AddKeepsOthers(s: seq<Selection>, n: Selection)
    ensures forall x :: x in s && Apart(x, n) ==> x in Added(s, n)
    ensures forall x :: x in Added(s, n) ==> x == n || x in s
  {
    SortPermutes(Placed(s, n));
    forall x | x in s && Apart(x, n) ensures x in Added(s, n) {
      SurvivorPlaced(s, n, x);
      assert x in multiset(Placed(s, n));
    }
    forall x | x in Added(s, n) ensures x == n || x in s {
      PlacedMembers(s, n);
      assert x in multiset(Placed(s, n));
    }
  }

  /** A stored selection apart from the new one is still in the placed list. */
  lemma SurvivorPlaced(s: seq<Selection>, n: Selection, x: Selection)
    requires x in s && Apart(x, n)
    ensures x in Placed(s, n)
  {
    var kept := KeepSurvivors(s, n);
    var k := FindIndex(kept, n);
    assert x in kept;
    var i :| 0 <= i < |kept| && kept[i] == x;
    if k != -1 {
      assert i != k;
      assert kept[k := n][i] == x;
    } else {
      assert (kept + [n])[i] == x;
    }
  }

  /** Every stored range is non-empty and starts at a position of the text:
      what a textarea selection with distinct bounds gives. */
  predicate Proper(s: seq<Selection>) {
    forall i :: 0 <= i < |s| ==> 0 <= s[i].start < s[i].end
  }

  /** addSelection with a non-empty range keeps every stored range non-empty. */
  lemma AddKeepsProper(s: seq<Selection>, n: Selection)
    requires Proper(s) && 0 <= n.start < n.end
    ensures Proper(Added(s, n))
  {
    AddKeepsOthers(s, n);
    forall i | 0 <= i < |Added(s, n)| ensures 0 <= Added(s, n)[i].start < Added(s, n)[i].end {
      var x := Added(s, n)[i];
      assert x in Added(s, n);
      if x != n {
        var j :| 0 <= j < |s| && s[j] == x;
      }
    }
  }

  /** An identical-bound entry is merged in place; otherwise the new selection
      is appended and the list grows by one. */
  lemma AddMergesOrAppends(s: seq<Selection>, n: Selection)
    ensures (exists i :: 0 <= i < |s| && SameBounds(s[i], n)) ==>
      |Added(s, n)| == |KeepSurvivors(s, n)|
    ensures (forall i :: 0 <= i < |s| ==> !SameBounds(s[i], n)) ==>
      |Added(s, n)| == |KeepSurvivors(s, n)| + 1
  {
    var kept := KeepSurvivors(s, n);
    if i :| 0 <= i < |s| && SameBounds(s[i], n) {
      assert s[i] in kept;
      var j :| 0 <= j < |kept| && kept[j] == s[i];
      assert FindIndex(kept, n) != -1;
    } else {
      forall j | 0 <= j < |kept| ensures !SameBounds(kept[j], n) {
        assert kept[j] in s;
      }
    }
  }

  /** The filter by index of removeSelection, order preserved. */
  function WithoutIndex(s: seq<Selection>, index: int): seq<Selection>
    decreases |s|
  {
    if s == [] then []
    else WithoutIndex(s[..|s| - 1], index) + (if |s| - 1 != index then [s[|s| - 1]] else [])
  }

  /** removeSelection drops exactly the entry at `index` when it exists and
      otherwise leaves the list as it is. */
  lemma {:induction false} WithoutIndexSlices(s: seq<Selection>, index: int)
    ensures 0 <= index < |s| ==> WithoutIndex(s, index) == s[..index] + s[index + 1..]
    ensures !(0 <= index < |s|) ==> WithoutIndex(s, index) == s
    decreases |s|
  {
    if s != [] {
      var init, last := s[..|s| - 1], s[|s| - 1];
      WithoutIndexSlices(init, index);
      if index == |s| - 1 {
        assert init == s[..index] && s[index + 1..] == [];
      } else if 0 <= index < |s| - 1 {
        assert init[..index] == s[..index];
        assert init[index + 1..] + [last] == s[index + 1..];
      } else {
        assert s == init + [last];
      }
    }
  }

  /** Position `k` after removing the entry at `index` holds the entry that
      was at `k`, or at `k + 1` from `index` on. */
  lemma RemovedAt(s: seq<Selection>, index: int, k: int)
    requires 0 <= index < |s| && 0 <= k < |s| - 1
    ensures (s[..index] + s[index + 1..])[k] == s[if k < index then k else k + 1]
  {
  }

  /** Removing one entry keeps the store invariant. */
  lemma RemoveKeepsInvariant(s: seq<Selection>, index: int)
    requires SortedByStart(s) && Pairwise(s)
    ensures SortedByStart(WithoutIndex(s, index)) && Pairwise(WithoutIndex(s, index))
  {
    WithoutIndexSlices(s, index);
    if 0 <= index < |s| {
      var r := s[..index] + s[index + 1..];
      forall i, j | 0 <= i < j < |r| ensures r[i].start <= r[j].start {
        RemovedAt(s, index, i);
        RemovedAt(s, index, j);
      }
      forall i, j | 0 <= i < |r| && 0 <= j < |r| && i != j ensures Apart(r[i], r[j]) {
        RemovedAt(s, index, i);
        RemovedAt(s, index, j);
      }
    }
  }

  class TextStore {
    var text: string
    var fgColor: string
    var bgColor: string
    var currentFgColor: string
    var currentBgColor: string
    var currentBold: bool
    var currentUnderline: bool
    var selections: seq<Selection>

    ghost predicate Valid()
      reads this
    {
      SortedByStart(selections) && Pairwise(selections)
    }

    /** The initial state of the store. */
    constructor ()
      ensures Valid()
      ensures text == WelcomeText
      ensures fgColor == DefaultFg && bgColor == DefaultBg
      ensures currentFgColor == DefaultFg && currentBgColor == DefaultBg
      ensures !currentBold && !currentUnderline
      ensures selections == []
    {
      text := WelcomeText;
      fgColor, bgColor := DefaultFg, DefaultBg;
      currentFgColor, currentBgColor := DefaultFg, DefaultBg;
      currentBold, currentUnderline := false, false;
      selections := [];
    }

    method SetText(t: string)
      modifies this`text
      ensures text == t
    {
      text := t;
    }

    method SetFgColor(c: string)
      modifies this`fgColor
      ensures fgColor == c
    {
      fgColor := c;
    }

    method SetBgColor(c: string)
      modifies this`bgColor
      ensures bgColor == c
    {
      bgColor := c;
    }

    method SetCurrentFgColor(c: string)
      modifies this`currentFgColor
      ensures currentFgColor == c
    {
      currentFgColor := c;
    }

    method SetCurrentBgColor(c: string)
      modifies this`currentBgColor
      ensures currentBgColor == c
    {
      currentBgColor := c;
    }

    method SetCurrentBold(b: bool)
      modifies this`currentBold
      ensures currentBold == b
    {
      currentBold := b;
    }

    method SetCurrentUnderline(b: bool)
      modifies this`currentUnderline
      ensures currentUnderline == b
    {
      currentUnderline := b;
    }

    /** addSelection: normalize the payload, drop overlapping entries, merge or
        append, and sort by start.  Only `selections` changes. */
    method AddSelection(p: Payload)
      requires Valid()
      modifies this`selections
      ensures Valid()
      ensures selections == Added(old(selections), Normalize(p, currentBold, currentUnderline))
      ensures Normalize(p, currentBold, currentUnderline) in selections
    {
      var n := Normalize(p, currentBold, currentUnderline);
      ghost var s0 := selections;
      AddKeepsInvariant(s0, n);
      AddSeparates(s0, n);
      var kept := KeepSurvivors(selections, n);
      var k := FindIndex(kept, n);
      if k != -1 {
        kept := kept[k := n];
      } else {
        kept := kept + [n];
      }
      assert kept == Placed(s0, n);
      selections := SortByStart(kept);
    }

    /** removeSelection: keep every entry whose index differs from `index`. */
    method RemoveSelection(index: int)
      requires Valid()
      modifies this`selections
      ensures Valid()
      ensures selections == WithoutIndex(old(selections), index)
      ensures 0 <= index < |old(selections)| ==>
        selections == old(selections)[..index] + old(selections)[index + 1..]
      ensures !(0 <= index < |old(selections)|) ==> selections == old(selections)
    {
      RemoveKeepsInvariant(selections, index);
      WithoutIndexSlices(selections, index);
      selections := WithoutIndex(selections, index);
    }

    method ClearSelections()
      modifies this`selections
      ensures Valid() && selections == []
    {
      selections := [];
    }

    /** clearColors: reset the default and current colours and flags and drop
        every selection; the text is left alone. */
    method ClearColors()
      modifies this`fgColor, this`bgColor, this`currentFgColor, this`currentBgColor,
        this`currentBold, this`currentUnderline, this`selections
      ensures Valid()
      ensures fgColor == DefaultFg && bgColor == DefaultBg
      ensures currentFgColor == DefaultFg && currentBgColor == DefaultBg
      ensures !currentBold && !currentUnderline
      ensures selections == []
    {
      fgColor, bgColor := DefaultFg, DefaultBg;
      currentFgColor, currentBgColor := DefaultFg, DefaultBg;
      currentBold, currentUnderline := false, false;
      selections := [];
    }
  }
}

/** The editor component's logic: building the selection for an "Apply to
    Selection" action, rendering the ANSI text and the preview spans, and the
    reconciler that clears every selection once one of them falls outside the
    text.  The renderers take a snapshot of the store's fields by value. */
module TextGenerator {
  import opened Selections
  import opened TextSlice
  import opened Ansi

  /** Which colour an "Apply to Selection" button applies. */
  datatype Apply = Fg | Bg

  const OpenFence: string := "```ansi\n"
  const CloseFence: string := "\n```"
  const EmptyAnsi: string := "```ansi\n```"

  /** `Array.find`: the first selection with exactly these bounds. */
  function FindSame(s: seq<Selection>, start: int, end: int): (r: Option<Selection>)
    ensures r.Some? ==> r.value in s && r.value.start == start && r.value.end == end
    ensures r.Some? ==> (exists k :: 0 <= k < |s| && s[k] == r.value &&
                          forall j :: 0 <= j < k ==> !(s[j].start == start && s[j].end == end))
    ensures r.None? ==> forall x :: x in s ==> !(x.start == start && x.end == end)
    decreases |s|
  {
    if s == [] then None
    else if s[0].start == start && s[0].end == end then Some(s[0])
    else FindSame(s[1..], start, end)
  }

  /** `found?.color || fallback`: the found selection's colour unless it is
      absent or empty. */
  function ColourOr(found: Option<Selection>, fg: bool, fallback: string): string {
    if found.Some? && (if fg then found.value.fgColor else found.value.bgColor) != "" then
      (if fg then found.value.fgColor else found.value.bgColor)
    else fallback
  }

  /** handleTextSelection: nothing for an empty selection; otherwise the applied
      colour comes from the picker, the other one from the identical-bound
      selection or the default, and the flags from the current toggles. */
  function BuildSelection(kind: Apply, start: int, end: int,
                          fgColor: string, bgColor: string,
                          currentFgColor: string, currentBgColor: string,
                          currentBold: bool, currentUnderline: bool,
                          selections: seq<Selection>): (r: Option<Payload>)
    ensures r.None? <==> start == end
    ensures r.Some? ==> r.value.start == start && r.value.end == end
    ensures r.Some? ==> r.value.bold == Some(currentBold) && r.value.underline == Some(currentUnderline)
    ensures r.Some? && kind == Fg ==> r.value.fgColor == currentFgColor
    ensures r.Some? && kind == Bg ==> r.value.bgColor == currentBgColor
    ensures r.Some? && kind == Fg && (forall x :: x in selections ==> !(x.start == start && x.end == end))
      ==> r.value.bgColor == bgColor
    ensures r.Some? && kind == Bg && (forall x :: x in selections ==> !(x.start == start && x.end == end))
      ==> r.value.fgColor == fgColor
    ensures var found := FindSame(selections, start, end);
      r.Some? && kind == Fg && found.Some? ==>
        r.value.bgColor == if found.value.bgColor != "" then found.value.bgColor else bgColor
    ensures var found := FindSame(selections, start, end);
      r.Some? && kind == Bg && found.Some? ==>
        r.value.fgColor == if found.value.fgColor != "" then found.value.fgColor else fgColor
  {
    if start == end then None
    else
      var found := FindSame(selections, start, end);
      Some(Payload(
        start, end,
        if kind == Fg then currentFgColor else ColourOr(found, true, fgColor),
        if kind == Bg then currentBgColor else ColourOr(found, false, bgColor),
        Some(currentBold), Some(currentUnderline)))
  }

  /** Applying a foreground colour to a range that already carries a background
      keeps that background: the stored entry for the range has the picked
      foreground, the existing background and the current flags. */
  lemma ApplyFgKeepsBackground(s: seq<Selection>, i: nat, currentFgColor: string, fgColor: string,
                               bgColor: string, currentBgColor: string,
                               currentBold: bool, currentUnderline: bool)
    requires Pairwise(s) && i < |s|
    requires s[i].start != s[i].end && s[i].bgColor != ""
    ensures var p := BuildSelection(Fg, s[i].start, s[i].end, fgColor, bgColor, currentFgColor,
                                    currentBgColor, currentBold, currentUnderline, s);
      p.Some? &&
      var n := Normalize(p.value, currentBold, currentUnderline);
      n in Added(s, n) && n.start == s[i].start && n.end == s[i].end &&
      n.fgColor == currentFgColor && n.bgColor == s[i].bgColor &&
      n.bold == currentBold && n.underline == currentUnderline
  {
    var found := FindSame(s, s[i].start, s[i].end);
    var e := found.value;
    var k :| 0 <= k < |s| && s[k] == e;
    assert !Apart(s[k], s[i]);
    var p := BuildSelection(Fg, s[i].start, s[i].end, fgColor, bgColor, currentFgColor,
                            currentBgColor, currentBold, currentUnderline, s);
    AddSeparates(s, Normalize(p.value, currentBold, currentUnderline));
  }

  /** Applying a background colour to a range that already carries a foreground
      keeps that foreground: the stored entry for the range has the picked
      background, the existing foreground and the current flags. */
  lemma ApplyBgKeepsForeground(s: seq<Selection>, i: nat, currentFgColor: string, fgColor: string,
                               bgColor: string, currentBgColor: string,
                               currentBold: bool, currentUnderline: bool)
    requires Pairwise(s) && i < |s|
    requires s[i].start != s[i].end && s[i].fgColor != ""
    ensures var p := BuildSelection(Bg, s[i].start, s[i].end, fgColor, bgColor, currentFgColor,
                                    currentBgColor, currentBold, currentUnderline, s);
      p.Some? &&
      var n := Normalize(p.value, currentBold, currentUnderline);
      n in Added(s, n) && n.start == s[i].start && n.end == s[i].end &&
      n.bgColor == currentBgColor && n.fgColor == s[i].fgColor &&
      n.bold == currentBold && n.underline == currentUnderline
  {
    var found := FindSame(s, s[i].start, s[i].end);
    var e := found.value;
    var k :| 0 <= k < |s| && s[k] == e;
    assert !Apart(s[k], s[i]);
    var p := BuildSelection(Bg, s[i].start, s[i].end, fgColor, bgColor, currentFgColor,
                            currentBgColor, currentBold, currentUnderline, s);
    AddSeparates(s, Normalize(p.value, currentBold, currentUnderline));
  }

  /** The no-selection ANSI output as the source writes it: a double-quoted
      string, so neither `${ansiCode}` nor `${text}` is substituted. */
  function AnsiWithoutSelectionsAsWritten(text: string, st: Style, palette: string -> nat): string {
    "````ansi\n" + [Esc] + "[${ansiCode}m${text}" + Reset + "\n````"
  }

  /** The no-selection ANSI output with the substitutions made: the whole text
      as one segment in the default colours and the current flags. */
  function AnsiWithoutSelections(text: string, st: Style, palette: string -> nat): string {
    "````ansi\n" + EncodeSegment(Segment(text, st), palette) + "\n````"
  }

  /** After the reset only the closing fence remains to be shown. */
  lemma VisibleResetTail(shown: string, tail: string)
    requires Esc !in shown && Esc !in tail
    ensures Visible(shown + (Reset + tail)) == shown + tail
  {
    VisibleReset(tail);
    VisibleNoEsc(tail);
    VisiblePlain(shown, Reset + tail);
  }

  /** The as-written literal, regrouped around its one escape sequence: ESC "[",
      the intermediate byte "$" and the final byte "{". */
  lemma AsWrittenShape(text: string, st: Style, palette: string -> nat)
    ensures AnsiWithoutSelectionsAsWritten(text, st, palette)
      == "````ansi\n" + ([Esc] + ("[$" + "{" + ("ansiCode}m${text}" + (Reset + "\n````"))))
  {
    var f, e, c := "````ansi\n", [Esc], "[${ansiCode}m${text}";
    var r, z := Reset, "\n````";
    assert c == "[$" + "{" + "ansiCode}m${text}";
    Associative(f + e + c, r, z);
    Associative(f + e, c, r + z);
    Associative(f, e, c + (r + z));
    Associative("[$" + "{", "ansiCode}m${text}", r + z);
    Associative(e, c, r + z);
  }

  /** As written, the no-selection output is the same for every text: the
      sequence ESC "[${" is consumed and the rest of the placeholders is shown. */
  lemma AsWrittenShowsPlaceholder(text: string, st: Style, palette: string -> nat)
    ensures Visible(AnsiWithoutSelectionsAsWritten(text, st, palette))
      == "````ansi\n" + "ansiCode}m${text}" + "\n````"
  {
    var y := "ansiCode}m${text}" + (Reset + "\n````");
    var b := [Esc] + ("[$" + "{" + y);
    assert Visible(y) == "ansiCode}m${text}" + "\n````" by {
      VisibleResetTail("ansiCode}m${text}", "\n````");
    }
    assert Visible(b) == Visible(y) by {
      assert "[$"[1..] == "$";
      VisibleEscape("[$", '{', y);
    }
    assert Visible("````ansi\n" + b) == "````ansi\n" + Visible(b) by {
      VisiblePlain("````ansi\n", b);
    }
    AsWrittenShape(text, st, palette);
    Associative("````ansi\n", "ansiCode}m${text}", "\n````");
  }

  /** The counterexample: for the text "Hello" the pasted message does not show "Hello". */
  lemma AsWrittenLosesText(st: Style, palette: string -> nat)
    ensures Visible(AnsiWithoutSelectionsAsWritten("Hello", st, palette)) != "````ansi\nHello\n````"
  {
    AsWrittenShowsPlaceholder("Hello", st, palette);
    assert ("````ansi\n" + "ansiCode}m${text}" + "\n````")[9] != "````ansi\nHello\n````"[9];
  }

  /** Corrected, the no-selection output shows exactly the text inside the fence. */
  lemma WithoutSelectionsShowsText(text: string, st: Style, palette: string -> nat)
    requires Esc !in text
    ensures Visible(AnsiWithoutSelections(text, st, palette)) == "````ansi\n" + text + "\n````"
  {
    var tail := "\n````";
    VisibleSegment(Segment(text, st), tail, palette);
    VisibleNoEsc(tail);
    var b := EncodeSegment(Segment(text, st), palette) + tail;
    VisiblePlain("````ansi\n", b);
    assert AnsiWithoutSelections(text, st, palette) == "````ansi\n" + b;
  }

  /** generateAnsiText as a function of the store snapshot, with the
      no-selection literal as the source writes it. */
  function AnsiText(text: string, fgColor: string, bgColor: string,
                    currentBold: bool, currentUnderline: bool,
                    selections: seq<Selection>, palette: string -> nat): string
  {
    if text == "" then EmptyAnsi
    else if selections == [] then
      AnsiWithoutSelectionsAsWritten(text, Style(fgColor, bgColor, currentBold, currentUnderline), palette)
    else
      OpenFence + Encode(Segments(text, Sort(selections), GapStyle(fgColor, bgColor)), palette) + CloseFence
  }

  /** generateAnsiText with the no-selection output corrected to a template literal. */
  function CorrectedAnsiText(text: string, fgColor: string, bgColor: string,
                             currentBold: bool, currentUnderline: bool,
                             selections: seq<Selection>, palette: string -> nat): string
  {
    if text == "" then EmptyAnsi
    else if selections == [] then
      AnsiWithoutSelections(text, Style(fgColor, bgColor, currentBold, currentUnderline), palette)
    else
      OpenFence + Encode(Segments(text, Sort(selections), GapStyle(fgColor, bgColor)), palette) + CloseFence
  }

  /** renderPreviewText as a function of the store snapshot. */
  function PreviewSpans(text: string, fgColor: string, bgColor: string,
                        currentBold: bool, currentUnderline: bool,
                        selections: seq<Selection>): seq<Segment>
  {
    if text == "" then []
    else if selections == [] then [Segment(text, Style(fgColor, bgColor, currentBold, currentUnderline))]
    else NonEmpty(Segments(text, Sort(selections), GapStyle(fgColor, bgColor)))
  }

  /** The loop of generateAnsiText over the sorted selections and the trailing gap. */
  method AnsiBody(text: string, d: Style, sorted: seq<Selection>, palette: string -> nat)
    returns (ansiText: string)
    ensures ansiText == OpenFence + Encode(Segments(text, sorted, d), palette)
  {
    ansiText := OpenFence;
    var lastIndex := 0;
    var i := 0;
    while i < |sorted|
      invariant 0 <= i <= |sorted|
      invariant lastIndex == EndOf(sorted[..i])
      invariant ansiText == OpenFence + Encode(Walk(text, sorted[..i], d), palette)
    {
      EncodeWalkSnoc(text, sorted, i, d, palette);
      var selection := sorted[i];
      var gap := "";
      if lastIndex < selection.start {
        var segment := Substring(text, lastIndex, selection.start);
        gap := EncodeSegment(Segment(segment, d), palette);
      }
      var segment := Substring(text, selection.start, selection.end);
      var own := EncodeSegment(Segment(segment, StyleOf(selection)), palette);
      Associative(OpenFence, Encode(Walk(text, sorted[..i], d), palette), gap);
      Associative(OpenFence, Encode(Walk(text, sorted[..i], d), palette) + gap, own);
      ansiText := ansiText + gap + own;
      lastIndex := selection.end;
      i := i + 1;
    }
    assert sorted[..i] == sorted;
    EncodeTrailing(text, sorted, d, palette);
    if lastIndex < |text| {
      var segment := Substring(text, lastIndex, |text|);
      var trailing := EncodeSegment(Segment(segment, d), palette);
      Associative(OpenFence, Encode(Walk(text, sorted, d), palette), trailing);
      ansiText := ansiText + trailing;
    }
  }

  /** generateAnsiText: the empty-text output, the unsubstituted literal when
      there is no selection, or the walk over the sorted selections. */
  method GenerateAnsiText(text: string, fgColor: string, bgColor: string,
                          currentBold: bool, currentUnderline: bool,
                          selections: seq<Selection>, palette: string -> nat)
    returns (ansiText: string)
    ensures ansiText == AnsiText(text, fgColor, bgColor, currentBold, currentUnderline, selections, palette)
    ensures text == "" ==> ansiText == EmptyAnsi
    ensures text != "" && selections == [] ==>
      Visible(ansiText) == "````ansi\n" + "ansiCode}m${text}" + "\n````"
  {
    if text == "" {
      return EmptyAnsi;
    }
    if |selections| == 0 {
      var st := Style(fgColor, bgColor, currentBold, currentUnderline);
      AsWrittenShowsPlaceholder(text, st, palette);
      return AnsiWithoutSelectionsAsWritten(text, st, palette);
    }
    var sorted := SortByStart(selections);
    ansiText := AnsiBody(text, GapStyle(fgColor, bgColor), sorted, palette);
    ansiText := ansiText + CloseFence;
  }

  /** The loop of renderPreviewText: the same walk, pushing only non-empty spans. */
  method PreviewBody(text: string, d: Style, sorted: seq<Selection>)
    returns (elements: seq<Segment>)
    ensures elements == NonEmpty(Segments(text, sorted, d))
  {
    elements := [];
    var lastIndex := 0;
    var i := 0;
    while i < |sorted|
      invariant 0 <= i <= |sorted|
      invariant lastIndex == EndOf(sorted[..i])
      invariant elements == NonEmpty(Walk(text, sorted[..i], d))
    {
      var selection := sorted[i];
      var gap := [];
      if lastIndex < selection.start {
        var defaultText := Substring(text, lastIndex, selection.start);
        if defaultText != "" {
          gap := [Segment(defaultText, d)];
        }
      }
      var own := [];
      var selectedText := Substring(text, selection.start, selection.end);
      if selectedText != "" {
        own := [Segment(selectedText, StyleOf(selection))];
      }
      assert gap == (var g := Substring(text, EndOf(sorted[..i]), sorted[i].start);
        if EndOf(sorted[..i]) < sorted[i].start && g != "" then [Segment(g, d)] else []);
      assert own == (var o := Substring(text, sorted[i].start, sorted[i].end);
        if o != "" then [Segment(o, StyleOf(sorted[i]))] else []);
      assert elements + gap + own == NonEmpty(Walk(text, sorted[..i + 1], d)) by {
        NonEmptyWalkSnoc(text, sorted, i, d);
      }
      elements := elements + gap + own;
      lastIndex := selection.end;
      i := i + 1;
    }
    assert sorted[..i] == sorted;
    NonEmptyTrailing(text, sorted, d);
    if lastIndex < |text| {
      var remainingText := Substring(text, lastIndex, |text|);
      if remainingText != "" {
        elements := elements + [Segment(remainingText, d)];
      }
    }
  }

  /** renderPreviewText: no spans for an empty text, one span in the default
      colours and current flags when there is no selection, and otherwise
      exactly the non-empty segments of the ANSI encoder's partition. */
  method RenderPreviewText(text: string, fgColor: string, bgColor: string,
                           currentBold: bool, currentUnderline: bool,
                           selections: seq<Selection>)
    returns (elements: seq<Segment>)
    ensures elements == PreviewSpans(text, fgColor, bgColor, currentBold, currentUnderline, selections)
    ensures text == "" ==> elements == []
    ensures text != "" && selections != [] ==>
      elements == NonEmpty(Segments(text, Sort(selections), GapStyle(fgColor, bgColor)))
  {
    if text == "" {
      return [];
    }
    if |selections| == 0 {
      return [Segment(text, Style(fgColor, bgColor, currentBold, currentUnderline))];
    }
    var sorted := SortByStart(selections);
    elements := PreviewBody(text, GapStyle(fgColor, bgColor), sorted);
  }

  /** Coverage of the ANSI output: for a store-consistent, in-bounds selection
      list, the output shows exactly the text inside the fence. */
  lemma AnsiShowsText(text: string, fgColor: string, bgColor: string,
                      currentBold: bool, currentUnderline: bool,
                      selections: seq<Selection>, palette: string -> nat)
    requires text != "" && selections != [] && Esc !in text
    requires SortedByStart(selections) && Pairwise(selections) && InBounds(selections, |text|)
    ensures Visible(AnsiText(text, fgColor, bgColor, currentBold, currentUnderline, selections, palette))
      == OpenFence + text + CloseFence
  {
    var d := GapStyle(fgColor, bgColor);
    var segs := Segments(text, selections, d);
    var b := Encode(segs, palette) + CloseFence;
    assert AnsiText(text, fgColor, bgColor, currentBold, currentUnderline, selections, palette) == OpenFence + b by {
      SortOfSorted(selections);
      Associative(OpenFence, Encode(segs, palette), CloseFence);
    }
    assert Visible(b) == text + CloseFence by {
      SegmentsCover(text, selections, d);
      SegmentStyles(text, selections, fgColor, bgColor);
      VisibleEncode(segs, CloseFence, palette);
      VisibleNoEsc(CloseFence);
    }
    VisiblePlain(OpenFence, b);
    Associative(OpenFence, text, CloseFence);
  }

  /** Corrected, generateAnsiText shows exactly the text inside its fence,
      with or without selections. */
  lemma CorrectedShowsText(text: string, fgColor: string, bgColor: string,
                           currentBold: bool, currentUnderline: bool,
                           selections: seq<Selection>, palette: string -> nat)
    requires text != "" && Esc !in text
    requires SortedByStart(selections) && Pairwise(selections) && InBounds(selections, |text|)
    ensures Visible(CorrectedAnsiText(text, fgColor, bgColor, currentBold, currentUnderline, selections, palette))
      == if selections == [] then "````ansi\n" + text + "\n````" else OpenFence + text + CloseFence
  {
    if selections == [] {
      WithoutSelectionsShowsText(text, Style(fgColor, bgColor, currentBold, currentUnderline), palette);
    } else {
      AnsiShowsText(text, fgColor, bgColor, currentBold, currentUnderline, selections, palette);
    }
  }

  /** Coverage of the preview: the spans spell exactly the text, and none is empty. */
  lemma PreviewCoversText(text: string, fgColor: string, bgColor: string,
                          currentBold: bool, currentUnderline: bool, selections: seq<Selection>)
    requires SortedByStart(selections) && Pairwise(selections) && InBounds(selections, |text|)
    ensures Concat(PreviewSpans(text, fgColor, bgColor, currentBold, currentUnderline, selections)) == text
    ensures forall seg :: (seg in PreviewSpans(text, fgColor, bgColor, currentBold, currentUnderline, selections)
      ==> seg.text != "")
  {
    if text != "" && selections != [] {
      var d := GapStyle(fgColor, bgColor);
      SortOfSorted(selections);
      SegmentsCover(text, selections, d);
      NonEmptyConcat(Segments(text, selections, d));
    }
  }

  /** Styles of the preview by position: with selections stored, each character
      of the text is shown in the style of the selection covering it, and in the
      toolbar's colours without bold or underline when none does. */
  lemma PreviewCells(text: string, fgColor: string, bgColor: string,
                     currentBold: bool, currentUnderline: bool, selections: seq<Selection>)
    requires selections != []
    requires SortedByStart(selections) && Pairwise(selections) && InBounds(selections, |text|)
    ensures |Styled(PreviewSpans(text, fgColor, bgColor, currentBold, currentUnderline, selections))| == |text|
    ensures forall k :: 0 <= k < |text| ==>
      Styled(PreviewSpans(text, fgColor, bgColor, currentBold, currentUnderline, selections))[k].ch == text[k]
    ensures forall i, k :: 0 <= i < |selections| && selections[i].start <= k < selections[i].end ==>
      Styled(PreviewSpans(text, fgColor, bgColor, currentBold, currentUnderline, selections))[k].style
        == StyleOf(selections[i])
    ensures forall k :: 0 <= k < |text| && Uncovered(selections, k) ==>
      Styled(PreviewSpans(text, fgColor, bgColor, currentBold, currentUnderline, selections))[k].style
        == Style(fgColor, bgColor, false, false)
  {
    var d := GapStyle(fgColor, bgColor);
    SortOfSorted(selections);
    SegmentCells(text, selections, d);
    if text != "" {
      NonEmptyCells(Segments(text, selections, d));
    }
  }

  /** The reconciler's filter: selections that still fit in a text of length `len`. */
  function ValidSelections(s: seq<Selection>, len: nat): (r: seq<Selection>)
    ensures |r| <= |s|
    decreases |s|
  {
    if s == [] then []
    else
      var last := s[|s| - 1];
      ValidSelections(s[..|s| - 1], len) + (if last.start <= len && last.end <= len then [last] else [])
  }

  /** The reconciler clears when the filter dropped something. */
  function ShouldClear(s: seq<Selection>, len: nat): bool {
    |ValidSelections(s, len)| != |s|
  }

  /** The filter dropped something exactly when some selection starts or ends past the text. */
  lemma {:induction false} ShouldClearIff(s: seq<Selection>, len: nat)
    ensures ShouldClear(s, len) <==> exists i :: 0 <= i < |s| && (s[i].start > len || s[i].end > len)
    decreases |s|
  {
    if s != [] {
      var init := s[..|s| - 1];
      ShouldClearIff(init, len);
      if exists i :: 0 <= i < |init| && (init[i].start > len || init[i].end > len) {
        var i :| 0 <= i < |init| && (init[i].start > len || init[i].end > len);
        assert s[i] == init[i];
      }
      if exists i :: 0 <= i < |s| && (s[i].start > len || s[i].end > len) {
        var i :| 0 <= i < |s| && (s[i].start > len || s[i].end > len);
        if i < |init| { assert init[i] == s[i]; }
      }
    }
  }

  /** After the reconciler every stored range lies within the text: the
      in-bounds condition the renderer relies on holds for whatever it keeps. */
  lemma ReconciledInBounds(s: seq<Selection>, len: nat)
    requires Proper(s)
    ensures InBounds(if ShouldClear(s, len) then [] else s, len)
  {
    ShouldClearIff(s, len);
  }

  /** The reconciler run after a text change: all selections are cleared as soon
      as one of them falls outside the text; otherwise nothing changes. */
  method Reconcile(store: TextStore)
    requires store.Valid()
    modifies store`selections
    ensures store.Valid()
    ensures store.selections == (if ShouldClear(old(store.selections), |store.text|) then [] else old(store.selections))
    ensures forall i :: 0 <= i < |store.selections| ==>
      store.selections[i].start <= |store.text| && store.selections[i].end <= |store.text|
  {
    ShouldClearIff(store.selections, |store.text|);
    if ShouldClear(store.selections, |store.text|) {
      store.ClearSelections();
    }
  }

  /** An "Apply to Selection" click: build the selection from the textarea's
      selection bounds and dispatch addSelection unless it is empty. */
  method ApplyToSelection(store: TextStore, kind: Apply, start: int, end: int)
    requires store.Valid()
    modifies store`selections
    ensures store.Valid()
    ensures start == end ==> store.selections == old(store.selections)
    ensures start != end ==>
      var p := BuildSelection(kind, start, end, store.fgColor, store.bgColor,
                              store.currentFgColor, store.currentBgColor,
                              store.currentBold, store.currentUnderline, old(store.selections));
      store.selections == Added(old(store.selections), Normalize(p.value, store.currentBold, store.currentUnderline))
  {
    var p := BuildSelection(kind, start, end, store.fgColor, store.bgColor,
                            store.currentFgColor, store.currentBgColor,
                            store.currentBold, store.currentUnderline, store.selections);
    if p.Some? {
      store.AddSelection(p.value);
    }
  }
}

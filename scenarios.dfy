/** Concrete runs of the store, the renderer and the reconciler. */
module Scenarios {
  import opened Selections
  import opened TextSlice
  import opened Ansi
  import opened TextGenerator

  const Red: string := "#ff0000"
  const Blue: string := "#0000ff"

  /** A stored range [0,5) is deleted whole, not clipped to [0,2), when [2,8) is added. */
  lemma OverlapDeletesWhole()
    ensures Added([Selection(0, 5, Red, DefaultBg, false, false)], Selection(2, 8, Blue, DefaultBg, true, false))
      == [Selection(2, 8, Blue, DefaultBg, true, false)]
  {
    var old0 := Selection(0, 5, Red, DefaultBg, false, false);
    var n := Selection(2, 8, Blue, DefaultBg, true, false);
    assert KeepSurvivors([old0], n) == [];
    assert Placed([old0], n) == [n];
  }

  /** Adding the same bounds again overwrites the stored entry in place. */
  lemma IdenticalBoundsMerge()
    ensures Added([Selection(0, 5, Red, DefaultBg, false, false)], Selection(0, 5, Blue, DefaultBg, true, true))
      == [Selection(0, 5, Blue, DefaultBg, true, true)]
  {
    var old0 := Selection(0, 5, Red, DefaultBg, false, false);
    var n := Selection(0, 5, Blue, DefaultBg, true, true);
    assert KeepSurvivors([old0], n) == [old0];
    assert FindIndex([old0], n) == 0;
    assert Placed([old0], n) == [n];
  }

  /** "Hello World" with [0,5) red and bold and [6,11) blue renders as three
      segments: "Hello" in its style, " " in the default style, "World" in its style. */
  lemma HelloWorldSegments()
    ensures Segments("Hello World",
                     [Selection(0, 5, Red, DefaultBg, true, false), Selection(6, 11, Blue, DefaultBg, false, false)],
                     GapStyle(DefaultFg, DefaultBg))
      == [Segment("Hello", Style(Red, DefaultBg, true, false)),
          Segment(" ", GapStyle(DefaultFg, DefaultBg)),
          Segment("World", Style(Blue, DefaultBg, false, false))]
  {
    var a := Selection(0, 5, Red, DefaultBg, true, false);
    var b := Selection(6, 11, Blue, DefaultBg, false, false);
    var d := GapStyle(DefaultFg, DefaultBg);
    assert [a, b][..1] == [a];
    assert [a][..0] == [];
    assert Substring("Hello World", 0, 5) == "Hello";
    assert Substring("Hello World", 5, 6) == " ";
    assert Substring("Hello World", 6, 11) == "World";
    assert Gap("Hello World", 11, 11, d) == [];
    assert Walk("Hello World", [a], d) == [Segment("Hello", StyleOf(a))];
    assert Walk("Hello World", [a, b], d)
      == [Segment("Hello", StyleOf(a)), Segment(" ", d), Segment("World", StyleOf(b))];
  }

  /** Shrinking the text to 10 characters with [3,8) and [12,18) stored clears
      both, although [3,8) alone would still fit. */
  lemma ShrinkClearsAll()
    ensures ShouldClear([Selection(3, 8, Red, DefaultBg, false, false),
                         Selection(12, 18, Blue, DefaultBg, false, false)], 10)
  {
    var s := [Selection(3, 8, Red, DefaultBg, false, false), Selection(12, 18, Blue, DefaultBg, false, false)];
    ShouldClearIff(s, 10);
    assert s[1].start > 10;
  }
}

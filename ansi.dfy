/** The segment partition of the text and its SGR (Select Graphic Rendition,
    ECMA-48 section 8.3.117) encoding.

    The renderer walks the selections in order with a cursor: a gap segment in
    the default style before each selection, the selection's own segment, and a
    trailing gap.  Each segment is encoded as ESC "[" parameters "m", the text,
    and the reset ESC "[0m".  `Visible` is what a reader of the encoded string
    sees once every escape sequence is interpreted rather than shown. */
module Ansi {
  import opened Selections

  const Esc: char := '\U{1B}'
  const Reset: string := [Esc] + "[0m"

  /** The colour code used when a colour is absent or empty. */
  const FallbackCode: nat := 15

  datatype Style = Style(fgColor: string, bgColor: string, bold: bool, underline: bool)

  datatype Segment = Segment(text: string, style: Style)

  function StyleOf(sel: Selection): Style {
    Style(sel.fgColor, sel.bgColor, sel.bold, sel.underline)
  }

  /** The style of text outside every selection: default colours, no flags. */
  function GapStyle(fgColor: string, bgColor: string): Style {
    Style(fgColor, bgColor, false, false)
  }

  function Clamp(i: int, n: nat): (r: nat)
    ensures r <= n
    ensures 0 <= i <= n ==> r == i
  {
    if i < 0 then 0 else if i > n then n else i
  }

  /** JavaScript `substring`: both indices clamped into the string, and swapped
      when the first is larger. */
  function Substring(t: string, a: int, b: int): (r: string)
    ensures 0 <= a <= b <= |t| ==> r == t[a..b]
    ensures forall c :: c in r ==> c in t
  {
    var x, y := Clamp(a, |t|), Clamp(b, |t|);
    if x <= y then t[x..y] else t[y..x]
  }

  /** hexToAnsi: an absent or empty colour gives the fallback code; any other
      colour is looked up in `palette`, which stands for the original's
      randomly drawn code. */
  function HexToAnsi(hex: string, palette: string -> nat): (code: nat)
    ensures hex == "" ==> code == FallbackCode
  {
    if hex == "" then FallbackCode else palette(hex)
  }

  /** The code hexToAnsi draws for a non-empty colour, `Math.floor(draw * 231) + 16`
      for a draw in [0, 1): always a code of the 256-colour table above the
      sixteen system colours. */
  function RandomCode(draw: real): (code: nat)
    requires 0.0 <= draw < 1.0
    ensures 16 <= code <= 246
  {
    (draw * 231.0).Floor + 16
  }

  function Digit(d: nat): (c: char)
    requires d < 10
    ensures '0' <= c <= '9'
  {
    "0123456789"[d]
  }

  /** The decimal numeral of `n`, as a template literal prints it. */
  function NatToString(n: nat): (r: string)
    ensures |r| >= 1
    ensures forall c :: c in r ==> '0' <= c <= '9'
    decreases n
  {
    if n < 10 then [Digit(n)] else NatToString(n / 10) + [Digit(n % 10)]
  }

  /** The value of a string of decimal digits. */
  function ParseNat(s: string): nat
    decreases |s|
  {
    if s == [] then 0
    else
      var d := s[|s| - 1] as int - '0' as int;
      ParseNat(s[..|s| - 1]) * 10 + (if 0 <= d then d else 0)
  }

  /** The decimal numeral reads back as the number it was printed from. */
  lemma {:induction false} NatToStringRoundTrip(n: nat)
    ensures ParseNat(NatToString(n)) == n
    decreases n
  {
    if n >= 10 {
      NatToStringRoundTrip(n / 10);
      var s := NatToString(n);
      assert s[..|s| - 1] == NatToString(n / 10);
    }
  }

  /** The SGR parameters of a segment: "1;" when bold, "4;" when underlined,
      then the 256-colour foreground and background selectors. */
  function SgrParams(st: Style, palette: string -> nat): string {
    (if st.bold then "1;" else "") + (if st.underline then "4;" else "")
      + "38;5;" + NatToString(HexToAnsi(st.fgColor, palette))
      + ";48;5;" + NatToString(HexToAnsi(st.bgColor, palette))
  }

  function EncodeSegment(seg: Segment, palette: string -> nat): string {
    [Esc] + "[" + SgrParams(seg.style, palette) + "m" + seg.text + Reset
  }

  function Encode(segs: seq<Segment>, palette: string -> nat): string
    decreases |segs|
  {
    if segs == [] then "" else EncodeSegment(segs[0], palette) + Encode(segs[1..], palette)
  }

  /** The texts of the segments, joined in order. */
  function Concat(segs: seq<Segment>): string
    decreases |segs|
  {
    if segs == [] then "" else segs[0].text + Concat(segs[1..])
  }

  /** The segments whose text is not empty, in order. */
  function NonEmpty(segs: seq<Segment>): seq<Segment>
    decreases |segs|
  {
    if segs == [] then []
    else (if segs[0].text != "" then [segs[0]] else []) + NonEmpty(segs[1..])
  }

  lemma Associative(a: string, b: string, c: string)
    ensures (a + b) + c == a + (b + c)
  {
  }

  lemma {:induction false} EncodeAppend(a: seq<Segment>, b: seq<Segment>, palette: string -> nat)
    ensures Encode(a + b, palette) == Encode(a, palette) + Encode(b, palette)
    decreases |a|
  {
    if a == [] {
      assert a + b == b;
    } else {
      var h := EncodeSegment(a[0], palette);
      assert Encode(a + b, palette) == h + Encode(a[1..] + b, palette) by {
        assert (a + b)[0] == a[0] && (a + b)[1..] == a[1..] + b;
      }
      EncodeAppend(a[1..], b, palette);
      Associative(h, Encode(a[1..], palette), Encode(b, palette));
    }
  }

  lemma {:induction false} ConcatAppend(a: seq<Segment>, b: seq<Segment>)
    ensures Concat(a + b) == Concat(a) + Concat(b)
    decreases |a|
  {
    if a != [] {
      assert Concat(a + b) == a[0].text + Concat(a[1..] + b) by {
        assert (a + b)[0] == a[0] && (a + b)[1..] == a[1..] + b;
      }
      assert Concat(a[1..] + b) == Concat(a[1..]) + Concat(b) by {
        ConcatAppend(a[1..], b);
      }
      Associative(a[0].text, Concat(a[1..]), Concat(b));
    } else {
      assert a + b == b;
    }
  }

  lemma SegmentsAssociative(a: seq<Segment>, b: seq<Segment>, c: seq<Segment>)
    ensures (a + b) + c == a + (b + c)
  {
  }

  lemma {:induction false} NonEmptyAppend(a: seq<Segment>, b: seq<Segment>)
    ensures NonEmpty(a + b) == NonEmpty(a) + NonEmpty(b)
    decreases |a|
  {
    if a != [] {
      var head := if a[0].text != "" then [a[0]] else [];
      assert NonEmpty(a + b) == head + NonEmpty(a[1..] + b) by {
        assert (a + b)[0] == a[0] && (a + b)[1..] == a[1..] + b;
      }
      assert NonEmpty(a[1..] + b) == NonEmpty(a[1..]) + NonEmpty(b) by {
        NonEmptyAppend(a[1..], b);
      }
      SegmentsAssociative(head, NonEmpty(a[1..]), NonEmpty(b));
    } else {
      assert a + b == b;
    }
  }

  /** Dropping empty segments does not change the text they spell. */
  lemma {:induction false} NonEmptyConcat(segs: seq<Segment>)
    ensures Concat(NonEmpty(segs)) == Concat(segs)
    ensures forall seg :: seg in NonEmpty(segs) ==> seg in segs && seg.text != ""
    decreases |segs|
  {
    if segs != [] {
      NonEmptyConcat(segs[1..]);
      var head := if segs[0].text != "" then [segs[0]] else [];
      ConcatAppend(head, NonEmpty(segs[1..]));
    }
  }

  /** Reads the bold and underline flags back from SGR parameters. */
  function ParseFlags(params: string): (bool, bool) {
    var bold := |params| >= 2 && params[..2] == "1;";
    var rest := if bold then params[2..] else params;
    (bold, |rest| >= 2 && rest[..2] == "4;")
  }

  /** A segment's parameters start with "1;" exactly when it is bold and then
      carry "4;" exactly when it is underlined. */
  lemma FlagsRoundTrip(st: Style, palette: string -> nat)
    ensures ParseFlags(SgrParams(st, palette)) == (st.bold, st.underline)
  {
    var b := if st.bold then "1;" else "";
    var ul := if st.underline then "4;" else "";
    var n1, n2 := NatToString(HexToAnsi(st.fgColor, palette)), NatToString(HexToAnsi(st.bgColor, palette));
    var colours := "38;5;" + n1 + ";48;5;" + n2;
    var u := ul + colours;
    var p := SgrParams(st, palette);
    assert p == b + u by {
      Regroup(b, ul, "38;5;", n1, ";48;5;", n2);
    }
    assert colours[0] == '3' && colours[1] == '8';
    assert |u| >= 2 && (u[..2] == "4;") == st.underline && u[0] != '1' by {
      if st.underline {
        assert u[..2] == "4;";
      } else {
        assert u == colours;
        assert u[..2][0] == '3';
      }
    }
    if st.bold {
      assert p[..2] == "1;" && p[2..] == u;
    } else {
      assert p == u;
      assert p[..2] != "1;" by { assert p[..2][0] != '1'; }
    }
  }

  lemma Regroup(b: string, ul: string, a: string, n1: string, c: string, n2: string)
    ensures b + ul + a + n1 + c + n2 == b + (ul + (a + n1 + c + n2))
  {
  }

  /** A final byte of a control sequence: 0x40 to 0x7E (ECMA-48 section 5.4). */
  predicate IsFinal(c: char) {
    '@' <= c <= '~'
  }

  /** Drops a control sequence's parameter and intermediate bytes up to and
      including its final byte. */
  function SkipCsi(s: string): (r: string)
    ensures |r| <= |s|
    decreases |s|
  {
    if s == [] then [] else if IsFinal(s[0]) then s[1..] else SkipCsi(s[1..])
  }

  /** The characters a terminal shows for `s`: ESC "[" opens a control sequence
      that runs to its final byte, ESC followed by any other character is a
      two-character escape sequence, and every escape sequence is consumed. */
  function Visible(s: string): string
    decreases |s|
  {
    if s == [] then []
    else if s[0] == Esc then
      if |s| >= 2 && s[1] == '[' then Visible(SkipCsi(s[2..]))
      else if |s| >= 2 then Visible(s[2..])
      else []
    else [s[0]] + Visible(s[1..])
  }

  lemma {:induction false} SkipCsiPast(p: string, f: char, y: string)
    requires forall c :: c in p ==> !IsFinal(c)
    requires IsFinal(f)
    ensures SkipCsi(p + [f] + y) == y
    decreases |p|
  {
    if p == [] {
      assert p + [f] + y == [f] + y;
    } else {
      assert p[0] in p;
      forall c | c in p[1..] ensures !IsFinal(c) { assert c in p; }
      SkipCsiPast(p[1..], f, y);
      assert (p + [f] + y)[1..] == p[1..] + [f] + y;
    }
  }

  lemma {:induction false} VisiblePlain(t: string, y: string)
    requires Esc !in t
    ensures Visible(t + y) == t + Visible(y)
    decreases |t|
  {
    if t != [] {
      VisiblePlain(t[1..], y);
      assert (t + y)[0] == t[0] && t[0] in t;
      assert (t + y)[1..] == t[1..] + y;
      assert [t[0]] + t[1..] == t;
    } else {
      assert t + y == y;
    }
  }

  /** A string without ESC is shown as it is. */
  lemma VisibleNoEsc(t: string)
    requires Esc !in t
    ensures Visible(t) == t
  {
    VisiblePlain(t, []);
    assert t + [] == t;
  }

  /** A control sequence "[" parameters final-byte is consumed entirely. */
  lemma VisibleEscape(p: string, f: char, y: string)
    requires |p| >= 1 && p[0] == '['
    requires forall c :: c in p[1..] ==> !IsFinal(c)
    requires IsFinal(f)
    ensures Visible([Esc] + (p + [f] + y)) == Visible(y)
  {
    var x := p + [f] + y;
    assert ([Esc] + x)[0] == Esc && ([Esc] + x)[1] == '[';
    assert ([Esc] + x)[2..] == p[1..] + [f] + y;
    SkipCsiPast(p[1..], f, y);
  }

  /** SGR parameters are digits and ";" only, so none of them ends the sequence. */
  lemma ParamsPlain(st: Style, palette: string -> nat)
    ensures forall c :: c in SgrParams(st, palette) ==> !IsFinal(c)
  {
    var f := NatToString(HexToAnsi(st.fgColor, palette));
    var b := NatToString(HexToAnsi(st.bgColor, palette));
    assert forall c :: c in f ==> !IsFinal(c);
    assert forall c :: c in b ==> !IsFinal(c);
  }

  /** The encoded segment followed by `rest`, regrouped as one escape sequence,
      the text, and the reset followed by `rest`. */
  lemma EncodeSegmentShape(seg: Segment, rest: string, palette: string -> nat)
    ensures EncodeSegment(seg, palette) + rest
      == [Esc] + ("[" + SgrParams(seg.style, palette) + "m" + (seg.text + (Reset + rest)))
  {
    var e, o, q := [Esc], "[", SgrParams(seg.style, palette);
    var t, m := seg.text, "m";
    Associative(e + o + q + m + t, Reset, rest);
    Associative(e + o + q + m, t, Reset + rest);
    Associative(e, o, q);
    Associative(e, o + q, m);
    Associative(e, o + q + m, t + (Reset + rest));
  }

  /** After a reset only what follows it is shown. */
  lemma VisibleReset(rest: string)
    ensures Visible(Reset + rest) == Visible(rest)
  {
    assert Reset + rest == [Esc] + ("[0" + "m" + rest);
    VisibleEscape("[0", 'm', rest);
  }

  /** Once interpreted, a segment's escape sequences vanish and only its text remains. */
  lemma VisibleSegment(seg: Segment, rest: string, palette: string -> nat)
    requires Esc !in seg.text
    ensures Visible(EncodeSegment(seg, palette) + rest) == seg.text + Visible(rest)
  {
    var p := "[" + SgrParams(seg.style, palette);
    var tail := seg.text + (Reset + rest);
    assert Visible(EncodeSegment(seg, palette) + rest) == Visible(tail) by {
      ParamsPlain(seg.style, palette);
      assert p[1..] == SgrParams(seg.style, palette);
      EncodeSegmentShape(seg, rest, palette);
      VisibleEscape(p, 'm', tail);
    }
    assert Visible(tail) == seg.text + Visible(Reset + rest) by {
      VisiblePlain(seg.text, Reset + rest);
    }
    VisibleReset(rest);
  }

  /** The visible text of an encoded segment list is the segments' texts joined. */
  lemma {:induction false} VisibleEncode(segs: seq<Segment>, rest: string, palette: string -> nat)
    requires forall seg :: seg in segs ==> Esc !in seg.text
    ensures Visible(Encode(segs, palette) + rest) == Concat(segs) + Visible(rest)
    decreases |segs|
  {
    if segs == [] {
      assert Encode(segs, palette) + rest == rest;
    } else {
      var head := EncodeSegment(segs[0], palette);
      var more := Encode(segs[1..], palette) + rest;
      assert Encode(segs, palette) + rest == head + more by {
        Associative(head, Encode(segs[1..], palette), rest);
      }
      assert Visible(head + more) == segs[0].text + Visible(more) by {
        VisibleSegment(segs[0], more, palette);
      }
      assert Visible(more) == Concat(segs[1..]) + Visible(rest) by {
        forall seg | seg in segs[1..] ensures Esc !in seg.text { assert seg in segs; }
        VisibleEncode(segs[1..], rest, palette);
      }
      Associative(segs[0].text, Concat(segs[1..]), Visible(rest));
    }
  }

  /** A gap segment over [from, to) in style `d`, present only when from < to. */
  function Gap(text: string, from: int, to: int, d: Style): seq<Segment> {
    if from < to then [Segment(Substring(text, from, to), d)] else []
  }

  /** The cursor after a walk over `sels`: the end of the last selection, or 0. */
  function EndOf(sels: seq<Selection>): int {
    if sels == [] then 0 else sels[|sels| - 1].end
  }

  /** The segments emitted while walking `sels`: for each selection, the gap
      from the cursor to its start and then its own segment. */
  function Walk(text: string, sels: seq<Selection>, d: Style): seq<Segment>
    decreases |sels|
  {
    if sels == [] then []
    else
      var init, sel := sels[..|sels| - 1], sels[|sels| - 1];
      Walk(text, init, d) + Gap(text, EndOf(init), sel.start, d)
        + [Segment(Substring(text, sel.start, sel.end), StyleOf(sel))]
  }

  /** One more selection extends the walk by its gap and its own segment. */
  lemma WalkSnoc(text: string, sels: seq<Selection>, i: nat, d: Style)
    requires i < |sels|
    ensures Walk(text, sels[..i + 1], d) == Walk(text, sels[..i], d)
      + Gap(text, EndOf(sels[..i]), sels[i].start, d)
      + [Segment(Substring(text, sels[i].start, sels[i].end), StyleOf(sels[i]))]
  {
    assert sels[..i + 1][..i] == sels[..i];
  }

  lemma EncodeSingle(seg: Segment, palette: string -> nat)
    ensures Encode([seg], palette) == EncodeSegment(seg, palette)
  {
    assert [seg][1..] == [];
    assert Encode([seg], palette) == EncodeSegment(seg, palette) + "";
  }

  lemma NonEmptySingle(seg: Segment)
    ensures NonEmpty([seg]) == if seg.text != "" then [seg] else []
  {
    assert [seg][1..] == [];
    assert NonEmpty([seg]) == (if seg.text != "" then [seg] else []) + [];
  }

  /** The encoded form of one step of the walk, as the renderer appends it. */
  lemma EncodeWalkSnoc(text: string, sels: seq<Selection>, i: nat, d: Style, palette: string -> nat)
    requires i < |sels|
    ensures EndOf(sels[..i + 1]) == sels[i].end
    ensures Encode(Walk(text, sels[..i + 1], d), palette) == Encode(Walk(text, sels[..i], d), palette)
      + (if EndOf(sels[..i]) < sels[i].start
         then EncodeSegment(Segment(Substring(text, EndOf(sels[..i]), sels[i].start), d), palette) else "")
      + EncodeSegment(Segment(Substring(text, sels[i].start, sels[i].end), StyleOf(sels[i])), palette)
  {
    var before := Walk(text, sels[..i], d);
    var gap := Gap(text, EndOf(sels[..i]), sels[i].start, d);
    var own := Segment(Substring(text, sels[i].start, sels[i].end), StyleOf(sels[i]));
    var gapCode := if EndOf(sels[..i]) < sels[i].start
      then EncodeSegment(Segment(Substring(text, EndOf(sels[..i]), sels[i].start), d), palette) else "";
    assert Encode(gap, palette) == gapCode by {
      if gap != [] { EncodeSingle(gap[0], palette); }
    }
    assert Walk(text, sels[..i + 1], d) == before + gap + [own] by {
      WalkSnoc(text, sels, i, d);
    }
    EncodeAppend(before, gap, palette);
    EncodeAppend(before + gap, [own], palette);
    EncodeSingle(own, palette);
  }

  /** The preview form of one step of the walk: only non-empty spans are kept. */
  lemma NonEmptyWalkSnoc(text: string, sels: seq<Selection>, i: nat, d: Style)
    requires i < |sels|
    ensures EndOf(sels[..i + 1]) == sels[i].end
    ensures NonEmpty(Walk(text, sels[..i + 1], d)) == NonEmpty(Walk(text, sels[..i], d))
      + (var g := Substring(text, EndOf(sels[..i]), sels[i].start);
         if EndOf(sels[..i]) < sels[i].start && g != "" then [Segment(g, d)] else [])
      + (var o := Substring(text, sels[i].start, sels[i].end);
         if o != "" then [Segment(o, StyleOf(sels[i]))] else [])
  {
    var before := Walk(text, sels[..i], d);
    var gap := Gap(text, EndOf(sels[..i]), sels[i].start, d);
    var own := Segment(Substring(text, sels[i].start, sels[i].end), StyleOf(sels[i]));
    assert NonEmpty(gap) == (var g := Substring(text, EndOf(sels[..i]), sels[i].start);
         if EndOf(sels[..i]) < sels[i].start && g != "" then [Segment(g, d)] else []) by {
      if gap != [] { NonEmptySingle(gap[0]); }
    }
    assert Walk(text, sels[..i + 1], d) == before + gap + [own] by {
      WalkSnoc(text, sels, i, d);
    }
    NonEmptyAppend(before, gap);
    NonEmptyAppend(before + gap, [own]);
    NonEmptySingle(own);
  }

  /** Appending the trailing gap completes the encoded partition. */
  lemma EncodeTrailing(text: string, sels: seq<Selection>, d: Style, palette: string -> nat)
    ensures Encode(Segments(text, sels, d), palette) == Encode(Walk(text, sels, d), palette)
      + (if EndOf(sels) < |text| then EncodeSegment(Segment(Substring(text, EndOf(sels), |text|), d), palette) else "")
  {
    var gap := Gap(text, EndOf(sels), |text|, d);
    EncodeAppend(Walk(text, sels, d), gap, palette);
    if gap != [] {
      EncodeSingle(gap[0], palette);
    }
  }

  /** Appending the trailing gap, when not empty, completes the preview spans. */
  lemma NonEmptyTrailing(text: string, sels: seq<Selection>, d: Style)
    ensures NonEmpty(Segments(text, sels, d)) == NonEmpty(Walk(text, sels, d))
      + (var g := Substring(text, EndOf(sels), |text|);
         if EndOf(sels) < |text| && g != "" then [Segment(g, d)] else [])
  {
    var gap := Gap(text, EndOf(sels), |text|, d);
    NonEmptyAppend(Walk(text, sels, d), gap);
    if gap != [] {
      NonEmptySingle(gap[0]);
    }
  }

  /** The full partition: the walk followed by the trailing gap. */
  function Segments(text: string, sels: seq<Selection>, d: Style): seq<Segment> {
    Walk(text, sels, d) + Gap(text, EndOf(sels), |text|, d)
  }

  predicate InBounds(sels: seq<Selection>, len: nat) {
    forall i :: 0 <= i < |sels| ==> 0 <= sels[i].start < sels[i].end <= len
  }

  /** In a sorted, consistent list of non-empty ranges each range ends before the next begins. */
  lemma Chained(sels: seq<Selection>, len: nat, i: nat, j: nat)
    requires SortedByStart(sels) && Pairwise(sels) && InBounds(sels, len)
    requires i < j < |sels|
    ensures sels[i].end <= sels[j].start
  {
    assert Apart(sels[i], sels[j]);
  }

  lemma InBoundsPrefix(sels: seq<Selection>, len: nat, k: nat)
    requires InBounds(sels, len) && k <= |sels|
    ensures InBounds(sels[..k], len)
  {
    forall i | 0 <= i < k ensures 0 <= sels[..k][i].start < sels[..k][i].end <= len {
      assert sels[..k][i] == sels[i];
    }
  }

  lemma ConcatSingle(seg: Segment)
    ensures Concat([seg]) == seg.text
  {
    assert [seg][1..] == [];
    assert Concat([seg]) == seg.text + "";
  }

  /** A gap over [from, to) spells that slice of the text. */
  lemma ConcatGap(text: string, from: int, to: int, d: Style)
    requires 0 <= from <= to <= |text|
    ensures Concat(Gap(text, from, to, d)) == text[from..to]
  {
    if from < to {
      ConcatSingle(Gap(text, from, to, d)[0]);
    }
  }

  lemma SliceJoin(text: string, a: nat, b: nat)
    requires a <= b <= |text|
    ensures text[..a] + text[a..b] == text[..b]
  {
  }

  /** One step of the walk spells text[e..sel.end]: the gap, then the selection. */
  lemma WalkStep(text: string, e: int, sel: Selection, d: Style)
    requires 0 <= e <= sel.start < sel.end <= |text|
    ensures Concat(Gap(text, e, sel.start, d) + [Segment(Substring(text, sel.start, sel.end), StyleOf(sel))])
      == text[e..sel.end]
  {
    var g := Gap(text, e, sel.start, d);
    var one := Segment(Substring(text, sel.start, sel.end), StyleOf(sel));
    ConcatAppend(g, [one]);
    ConcatGap(text, e, sel.start, d);
    ConcatSingle(one);
    assert text[e..sel.start] + text[sel.start..sel.end] == text[e..sel.end];
  }

  /** Under the store invariant and in-bounds ranges, the walk spells the text up to the cursor. */
  lemma {:induction false} WalkCovers(text: string, sels: seq<Selection>, d: Style)
    requires SortedByStart(sels) && Pairwise(sels) && InBounds(sels, |text|)
    ensures 0 <= EndOf(sels) <= |text|
    ensures Concat(Walk(text, sels, d)) == text[..EndOf(sels)]
    decreases |sels|
  {
    if sels != [] {
      var init, sel := sels[..|sels| - 1], sels[|sels| - 1];
      assert 0 <= sel.start < sel.end <= |text|;
      assert Concat(Walk(text, init, d)) == text[..EndOf(init)] && 0 <= EndOf(init) <= |text| by {
        PairwisePrefix(sels, |sels| - 1);
        InBoundsPrefix(sels, |text|, |sels| - 1);
        WalkCovers(text, init, d);
      }
      var e := EndOf(init);
      assert e <= sel.start by {
        if init != [] { Chained(sels, |text|, |init| - 1, |sels| - 1); }
      }
      var step := Gap(text, e, sel.start, d) + [Segment(Substring(text, sel.start, sel.end), StyleOf(sel))];
      WalkStep(text, e, sel, d);
      assert Walk(text, sels, d) == Walk(text, init, d) + step;
      ConcatAppend(Walk(text, init, d), step);
      SliceJoin(text, e, sel.end);
    }
  }

  /** Coverage: the segments concatenate to exactly the text, in order, with no gaps or overlaps. */
  lemma SegmentsCover(text: string, sels: seq<Selection>, d: Style)
    requires SortedByStart(sels) && Pairwise(sels) && InBounds(sels, |text|)
    ensures Concat(Segments(text, sels, d)) == text
  {
    WalkCovers(text, sels, d);
    var e := EndOf(sels);
    ConcatAppend(Walk(text, sels, d), Gap(text, e, |text|, d));
    ConcatGap(text, e, |text|, d);
    SliceJoin(text, e, |text|);
    assert text[..|text|] == text;
  }

  /** Every segment is a gap in the default style `d` or carries the style of one of the selections. */
  lemma {:induction false} WalkStyles(text: string, sels: seq<Selection>, d: Style)
    ensures forall seg :: seg in Walk(text, sels, d) ==>
      seg.style == d || exists sel :: sel in sels && seg.style == StyleOf(sel)
    ensures forall seg :: seg in Walk(text, sels, d) ==> forall c :: c in seg.text ==> c in text
    decreases |sels|
  {
    if sels != [] {
      var init, sel := sels[..|sels| - 1], sels[|sels| - 1];
      WalkStyles(text, init, d);
      forall s | s in init ensures s in sels { assert sels == init + [sel]; }
    }
  }

  /** Gap segments carry only the default colours and are never bold or
      underlined; every other segment carries a selection's own style; and
      every segment's characters come from the text. */
  lemma SegmentStyles(text: string, sels: seq<Selection>, fgColor: string, bgColor: string)
    ensures forall seg :: seg in Segments(text, sels, GapStyle(fgColor, bgColor)) ==>
      seg.style == GapStyle(fgColor, bgColor) || exists sel :: sel in sels && seg.style == StyleOf(sel)
    ensures forall seg :: seg in Segments(text, sels, GapStyle(fgColor, bgColor)) ==>
      forall c :: c in seg.text ==> c in text
  {
    WalkStyles(text, sels, GapStyle(fgColor, bgColor));
  }

  /** One character of the rendered text with the style it is shown in. */
  datatype Cell = Cell(ch: char, style: Style)

  function Cells(seg: Segment): (r: seq<Cell>)
    ensures |r| == |seg.text|
    ensures forall j :: 0 <= j < |r| ==> r[j] == Cell(seg.text[j], seg.style)
  {
    seq(|seg.text|, j requires 0 <= j < |seg.text| => Cell(seg.text[j], seg.style))
  }

  /** The segments character by character, each character with its segment's style. */
  function Styled(segs: seq<Segment>): seq<Cell>
    decreases |segs|
  {
    if segs == [] then [] else Cells(segs[0]) + Styled(segs[1..])
  }

  /** No selection covers position `k`. */
  predicate Uncovered(sels: seq<Selection>, k: int) {
    forall i :: 0 <= i < |sels| ==> !(sels[i].start <= k < sels[i].end)
  }

  lemma CellsAssociative(a: seq<Cell>, b: seq<Cell>, c: seq<Cell>)
    ensures (a + b) + c == a + (b + c)
  {
  }

  lemma {:induction false} StyledAppend(a: seq<Segment>, b: seq<Segment>)
    ensures Styled(a + b) == Styled(a) + Styled(b)
    decreases |a|
  {
    if a == [] {
      assert a + b == b;
    } else {
      assert Styled(a + b) == Cells(a[0]) + Styled(a[1..] + b) by {
        assert (a + b)[0] == a[0] && (a + b)[1..] == a[1..] + b;
      }
      StyledAppend(a[1..], b);
      CellsAssociative(Cells(a[0]), Styled(a[1..]), Styled(b));
    }
  }

  lemma StyledSingle(seg: Segment)
    ensures Styled([seg]) == Cells(seg)
  {
    assert [seg][1..] == [];
    assert Styled([seg]) == Cells(seg) + [];
  }

  /** The cells of a gap over [from, to): that slice of the text in style `d`. */
  lemma GapCells(text: string, from: int, to: int, d: Style)
    requires 0 <= from <= to <= |text|
    ensures var c := Styled(Gap(text, from, to, d));
      |c| == to - from && forall j :: 0 <= j < |c| ==> c[j] == Cell(text[from + j], d)
  {
    if from < to {
      StyledSingle(Gap(text, from, to, d)[0]);
    }
  }

  /** The cells of one step of the walk: the gap from `e` in style `d`, then the
      selection's own range in its style. */
  lemma StepCells(text: string, e: int, sel: Selection, d: Style)
    requires 0 <= e <= sel.start < sel.end <= |text|
    ensures StepMatch(text, e, sel, d,
      Styled(Gap(text, e, sel.start, d) + [Segment(Substring(text, sel.start, sel.end), StyleOf(sel))]))
  {
    var g := Gap(text, e, sel.start, d);
    var own := Segment(Substring(text, sel.start, sel.end), StyleOf(sel));
    var c := Styled(g + [own]);
    assert c == Styled(g) + Cells(own) by {
      StyledAppend(g, [own]);
      StyledSingle(own);
    }
    GapCells(text, e, sel.start, d);
    assert own.text == text[sel.start..sel.end];
    forall j | 0 <= j < |c|
      ensures c[j] == Cell(text[e + j], if e + j < sel.start then d else StyleOf(sel))
    {
      if e + j < sel.start {
        assert c[j] == Styled(g)[j];
      } else {
        assert c[j] == Cells(own)[e + j - sel.start];
      }
    }
  }

  /** `step` shows text[e..sel.end]: up to the selection's start in style `d`,
      then in the selection's style. */
  predicate StepMatch(text: string, e: int, sel: Selection, d: Style, step: seq<Cell>) {
    0 <= e <= sel.start < sel.end <= |text| && |step| == sel.end - e &&
    forall j :: 0 <= j < |step| ==>
      step[j] == Cell(text[e + j], if e + j < sel.start then d else StyleOf(sel))
  }

  /** `cells` shows text[..n] character by character, each character in the
      style of the selection of `sels` covering it, or in `d` when none does. */
  predicate CellsMatch(text: string, sels: seq<Selection>, n: int, d: Style, cells: seq<Cell>) {
    0 <= n <= |text| && |cells| == n &&
    (forall i :: 0 <= i < |sels| ==> 0 <= sels[i].start && sels[i].end <= n) &&
    (forall k :: 0 <= k < n ==> cells[k].ch == text[k]) &&
    (forall i, k :: 0 <= i < |sels| && sels[i].start <= k < sels[i].end ==> cells[k].style == StyleOf(sels[i])) &&
    (forall k :: 0 <= k < n && Uncovered(sels, k) ==> cells[k].style == d)
  }

  /** Extending the cells of a walk over `init` by the cells of one more step
      keeps every character in the style of the selection covering it. */
  lemma ExtendCells(text: string, sels: seq<Selection>, d: Style, before: seq<Cell>, step: seq<Cell>, cells: seq<Cell>)
    requires sels != []
    requires CellsMatch(text, sels[..|sels| - 1], EndOf(sels[..|sels| - 1]), d, before)
    requires StepMatch(text, EndOf(sels[..|sels| - 1]), sels[|sels| - 1], d, step)
    requires cells == before + step
    ensures CellsMatch(text, sels, EndOf(sels), d, cells)
  {
    var init, sel := sels[..|sels| - 1], sels[|sels| - 1];
    var e := EndOf(init);
    var c := cells;
    forall i | 0 <= i < |sels| ensures 0 <= sels[i].start && sels[i].end <= sel.end {
      if i < |init| { assert sels[i] == init[i]; }
    }
    forall k | 0 <= k < sel.end
      ensures c[k].ch == text[k]
      ensures c[k].style == (if k < e then before[k].style else if k < sel.start then d else StyleOf(sel))
    {
      if k >= e { assert c[k] == step[k - e]; }
    }
    forall i, k | 0 <= i < |sels| && sels[i].start <= k < sels[i].end
      ensures c[k].style == StyleOf(sels[i])
    {
      if i < |init| {
        assert sels[i] == init[i];
      }
    }
    forall k | 0 <= k < sel.end && Uncovered(sels, k)
      ensures c[k].style == d
    {
      if k < e {
        forall i | 0 <= i < |init| ensures !(init[i].start <= k < init[i].end) {
          assert sels[i] == init[i];
        }
      } else {
        assert sels[|init|] == sel;
      }
    }
  }

  /** The cells of a walk over one more selection: those of the walk so far,
      then those of the new step. */
  lemma StyledWalkSnoc(text: string, sels: seq<Selection>, d: Style)
    requires sels != []
    ensures var init, sel := sels[..|sels| - 1], sels[|sels| - 1];
      Styled(Walk(text, sels, d)) == Styled(Walk(text, init, d))
        + Styled(Gap(text, EndOf(init), sel.start, d) + [Segment(Substring(text, sel.start, sel.end), StyleOf(sel))])
  {
    var init, sel := sels[..|sels| - 1], sels[|sels| - 1];
    var step := Gap(text, EndOf(init), sel.start, d) + [Segment(Substring(text, sel.start, sel.end), StyleOf(sel))];
    assert Walk(text, sels, d) == Walk(text, init, d) + step;
    StyledAppend(Walk(text, init, d), step);
  }

  /** One step of the walk, once the cursor after `init` is known not to pass
      the next selection's start. */
  lemma WalkCellsStep(text: string, sels: seq<Selection>, d: Style)
    requires sels != []
    requires 0 <= sels[|sels| - 1].start < sels[|sels| - 1].end <= |text|
    requires EndOf(sels[..|sels| - 1]) <= sels[|sels| - 1].start
    requires CellsMatch(text, sels[..|sels| - 1], EndOf(sels[..|sels| - 1]), d, Styled(Walk(text, sels[..|sels| - 1], d)))
    ensures CellsMatch(text, sels, EndOf(sels), d, Styled(Walk(text, sels, d)))
  {
    var init, sel := sels[..|sels| - 1], sels[|sels| - 1];
    var e := EndOf(init);
    var step := Gap(text, e, sel.start, d) + [Segment(Substring(text, sel.start, sel.end), StyleOf(sel))];
    StepCells(text, e, sel, d);
    StyledWalkSnoc(text, sels, d);
    ExtendCells(text, sels, d, Styled(Walk(text, init, d)), Styled(step), Styled(Walk(text, sels, d)));
  }

  /** Under the store invariant and in-bounds ranges, the walk shows each
      character up to the cursor in the style of the selection covering it, or
      in `d` when none does. */
  lemma {:induction false} WalkCells(text: string, sels: seq<Selection>, d: Style)
    requires SortedByStart(sels) && Pairwise(sels) && InBounds(sels, |text|)
    ensures CellsMatch(text, sels, EndOf(sels), d, Styled(Walk(text, sels, d)))
    decreases |sels|
  {
    if sels != [] {
      var n := |sels| - 1;
      assert CellsMatch(text, sels[..n], EndOf(sels[..n]), d, Styled(Walk(text, sels[..n], d))) by {
        PairwisePrefix(sels, n);
        InBoundsPrefix(sels, |text|, n);
        WalkCells(text, sels[..n], d);
      }
      assert EndOf(sels[..n]) <= sels[n].start by {
        if n > 0 { Chained(sels, |text|, n - 1, n); }
      }
      WalkCellsStep(text, sels, d);
    }
  }

  /** The walk's cells followed by the trailing gap's cells in style `d` show
      the whole text, each character in its covering selection's style or in `d`. */
  lemma FinishCells(text: string, sels: seq<Selection>, d: Style, w: seq<Cell>, g: seq<Cell>, c: seq<Cell>)
    requires CellsMatch(text, sels, EndOf(sels), d, w)
    requires |g| == |text| - EndOf(sels)
    requires forall j :: 0 <= j < |g| ==> g[j] == Cell(text[EndOf(sels) + j], d)
    requires c == w + g
    ensures |c| == |text|
    ensures forall k :: 0 <= k < |text| ==> c[k].ch == text[k]
    ensures forall i, k :: 0 <= i < |sels| && sels[i].start <= k < sels[i].end ==> c[k].style == StyleOf(sels[i])
    ensures forall k :: 0 <= k < |text| && Uncovered(sels, k) ==> c[k].style == d
  {
    var e := EndOf(sels);
    forall k | 0 <= k < |text| ensures c[k] == (if k < e then w[k] else Cell(text[k], d)) {
      if k >= e { assert c[k] == g[k - e]; }
    }
  }

  /** Styles by position: the partition shows the text character by character,
      each character in the style of the selection covering it, or in the
      default style `d` when no selection covers it. */
  lemma SegmentCells(text: string, sels: seq<Selection>, d: Style)
    requires SortedByStart(sels) && Pairwise(sels) && InBounds(sels, |text|)
    ensures |Styled(Segments(text, sels, d))| == |text|
    ensures forall k :: 0 <= k < |text| ==> Styled(Segments(text, sels, d))[k].ch == text[k]
    ensures forall i, k :: 0 <= i < |sels| && sels[i].start <= k < sels[i].end ==>
      Styled(Segments(text, sels, d))[k].style == StyleOf(sels[i])
    ensures forall k :: 0 <= k < |text| && Uncovered(sels, k) ==>
      Styled(Segments(text, sels, d))[k].style == d
  {
    var e := EndOf(sels);
    assert CellsMatch(text, sels, e, d, Styled(Walk(text, sels, d))) by {
      WalkCells(text, sels, d);
    }
    GapCells(text, e, |text|, d);
    assert Styled(Segments(text, sels, d)) == Styled(Walk(text, sels, d)) + Styled(Gap(text, e, |text|, d)) by {
      StyledAppend(Walk(text, sels, d), Gap(text, e, |text|, d));
    }
    FinishCells(text, sels, d, Styled(Walk(text, sels, d)), Styled(Gap(text, e, |text|, d)),
                Styled(Segments(text, sels, d)));
  }

  /** Dropping empty segments drops no character. */
  lemma {:induction false} NonEmptyCells(segs: seq<Segment>)
    ensures Styled(NonEmpty(segs)) == Styled(segs)
    decreases |segs|
  {
    if segs != [] {
      var head := if segs[0].text != "" then [segs[0]] else [];
      NonEmptyCells(segs[1..]);
      StyledAppend(head, NonEmpty(segs[1..]));
      if segs[0].text != "" {
        StyledSingle(segs[0]);
      } else {
        assert Cells(segs[0]) == [];
      }
    }
  }
}

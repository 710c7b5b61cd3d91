# Discord Text Generator — a Dafny model of its styling core

Discord Text Generator is a small web editor. The user types a message, selects ranges of it,
gives each range a foreground colour, a background colour, bold and underline, and copies the
result as a ` ```ansi ` code block that Discord shows in colour. This project models the two parts
of the editor that hold its logic:

- **The text store** (`src/store/textSlice.js`), in `text_slice.dfy` and `selection.dfy`.
  It is a Redux slice holding the text, the default colours, the current picker colours and
  flags, and the list of style selections. Its reducers become the methods of the class
  `TextSlice.TextStore`. Each method names the fields it changes.
  - `addSelection` removes every stored selection that overlaps the new one. Overlapping
    selections are deleted whole, never clipped. A stored selection with exactly the same bounds
    is overwritten in place. Otherwise the new selection is appended. The list is then sorted by
    start.
  - The class invariant `Valid()` holds in every reachable store. It says the list is sorted by
    start, and any two entries are disjoint and do not share both bounds. The constructor
    establishes it and every reducer keeps it.
  - The sort call `sort((a, b) => a.start - b.start)` is an insertion sort (`SortByStart`). It is
    proved equal to the stable sort function `Sort`, which is proved to return a sorted
    permutation of its input.
- **The editor component** (`src/components/TextGenerator.jsx`), in `ansi.dfy` and
  `text_generator.dfy`.
  - Building the selection for an "Apply to Selection" click.
  - `generateAnsiText`: the ANSI encoder.
  - `renderPreviewText`: the preview renderer.
  - `hexToAnsi`: the colour-code function.
  - The reconciler effect that clears all selections when the text shrinks under one of them.

Both renderers walk the sorted selections with a cursor. Before each selection they emit a gap
segment in the default style. Then comes the selection's own segment. A trailing gap comes last.
`Ansi.Segments` is that partition.
- The ANSI encoder writes each segment as an SGR sequence (ECMA-48 section 8.3.117): ESC `[`,
  the parameters, `m`, the text, and the reset ESC `[0m`.
- The preview keeps the non-empty segments as spans.
- `Ansi.Visible` is the reference for what a reader sees: the string with every escape sequence
  interpreted rather than shown. A control sequence is ESC `[` followed by bytes up to and
  including the first final byte, 0x40 to 0x7E (ECMA-48 section 5.4). The coverage lemmas say
  that the visible output is exactly the text.
- `Ansi.Styled` lists the characters of a partition, each with the style it is shown in. The
  style lemmas say which style each position of the text gets.

The renderers take the store's fields as parameters. The textarea's selection bounds are
parameters, too. So is the colour code drawn for a non-empty colour: `palette` in
`Ansi.HexToAnsi`, with its range stated by `Ansi.RandomCode`.

Four points of the code shape the model:
- **Colour codes.** `hexToAnsi` (`src/components/TextGenerator.jsx:125-128`) returns 15 for an
  empty colour. For any other colour it returns a random code in 16..246. The code does not
  depend on the hex value at all.
- **Identical-bound merge.** `addSelection` spreads the new selection over the stored entry with
  the same bounds (`src/store/textSlice.js:72-76`). The only caller sends a selection with every
  field set, so the stored entry becomes the new selection.
- **Reconciler.** The effect at `src/components/TextGenerator.jsx:244-253` keeps a selection only
  when both its `start` and its `end` are at most the text length. If it dropped any, it clears
  them all.
- **No-selection output.** For a text without selections, `generateAnsiText` returns the
  double-quoted string at `src/components/TextGenerator.jsx:82`. Nothing is substituted into it,
  so it never contains the text. `TextGenerator.AnsiText` and `TextGenerator.GenerateAnsiText`
  return that string as written. See "Findings".

## Model

| member | source | states |
|---|---|---|
| `TextSlice.TextStore.constructor` | src/store/textSlice.js:3-12 | The initial state is the welcome text, white on `#36393f`, with current colours equal to the defaults, no flags and no selections. It satisfies the store invariant. |
| `TextSlice.TextStore.SetText` | src/store/textSlice.js:18-20 | Replaces the text and nothing else. |
| `TextSlice.TextStore.SetFgColor` | src/store/textSlice.js:21-23 | Replaces the default foreground and nothing else. |
| `TextSlice.TextStore.SetBgColor` | src/store/textSlice.js:24-26 | Replaces the default background and nothing else. |
| `TextSlice.TextStore.SetCurrentFgColor` | src/store/textSlice.js:27-29 | Replaces the picker foreground and nothing else. |
| `TextSlice.TextStore.SetCurrentBgColor` | src/store/textSlice.js:30-32 | Replaces the picker background and nothing else. |
| `TextSlice.TextStore.SetCurrentBold` | src/store/textSlice.js:33-36 | Replaces the current bold flag and nothing else. |
| `TextSlice.TextStore.SetCurrentUnderline` | src/store/textSlice.js:37-40 | Replaces the current underline flag and nothing else. |
| `TextSlice.Normalize` | src/store/textSlice.js:42-53 | The stored selection has the payload's bounds and colours. Each flag is the payload's when defined and the current flag otherwise. |
| `TextSlice.KeepSurvivors` | src/store/textSlice.js:56-65 | An entry is kept exactly when it does not overlap the new selection or has its exact bounds. |
| `TextSlice.FindIndex` | src/store/textSlice.js:68-70 | The result is -1 exactly when no entry has the new bounds. Otherwise it is the first such index. |
| `TextSlice.TextStore.AddSelection` | src/store/textSlice.js:41-83 | The new list is the filter, then the update-or-push, then the sort. The new selection is in it. The store invariant is kept. Only `selections` changes. |
| `TextSlice.AddSeparates` | src/store/textSlice.js:55-65 | After the add, every entry either does not overlap the new selection or is that selection's identical-bound slot. The new selection is present. |
| `TextSlice.AddExactlyOne` | src/store/textSlice.js:67-79 | After the add, exactly one entry has the new bounds, and it is the new selection. |
| `TextSlice.AddKeepsOthers` | src/store/textSlice.js:55-65 | Every stored entry apart from the new selection stays. Every entry of the result is either the new selection or a former entry. |
| `TextSlice.AddMergesOrAppends` | src/store/textSlice.js:72-79 | The length after the add equals the number of survivors when an identical-bound entry existed (merge). Otherwise it is one more (push). |
| `TextSlice.AddKeepsInvariant` | src/store/textSlice.js:55-82 | On a consistent list, the add returns a list that is sorted by start and pairwise disjoint with distinct bounds. |
| `Selections.SortByStart` | src/store/textSlice.js:81-82 | The insertion sort returns `Sort` of its input, which is sorted by start and a permutation of the input. |
| `Selections.SortPermutes` | src/store/textSlice.js:82 | Sorting keeps the same entries with the same multiplicities. |
| `Selections.SortSorted` | src/store/textSlice.js:82 | The sort returns a list ascending by start. |
| `Selections.SortPairwise` | src/store/textSlice.js:82 | Sorting a consistent list keeps it consistent. |
| `Selections.SortOfSorted` | src/components/TextGenerator.jsx:89 | Sorting a list already sorted by start changes nothing, so the renderers' own sort of the stored list is the identity. |
| `TextSlice.TextStore.RemoveSelection` | src/store/textSlice.js:84-88 | Removes the entry at the index when the index is in range and changes nothing otherwise. The store invariant is kept. |
| `TextSlice.WithoutIndexSlices` | src/store/textSlice.js:85-87 | Filtering by index removes exactly position `index` when it is in range, and nothing otherwise. |
| `TextSlice.RemoveKeepsInvariant` | src/store/textSlice.js:84-88 | Removing one entry keeps the list sorted and consistent. |
| `TextSlice.TextStore.ClearSelections` | src/store/textSlice.js:89-91 | The selection list becomes empty. Nothing else changes. |
| `TextSlice.TextStore.ClearColors` | src/store/textSlice.js:92-100 | All four colours return to the defaults, both flags are cleared, and the selections are emptied. The text is kept. |
| `TextGenerator.FindSame` | src/components/TextGenerator.jsx:59 | Returns the first entry with exactly the given bounds: no earlier entry has them. Returns nothing exactly when no entry has them. |
| `TextGenerator.BuildSelection` | src/components/TextGenerator.jsx:44-68 | There is no selection exactly when start equals end. Otherwise the selection has the given bounds, the current flags and the picked colour. The other colour is taken from the first identical-bound entry when that colour is non-empty. Otherwise, or when no such entry exists, it is the default. |
| `TextGenerator.ApplyFgKeepsBackground` | src/components/TextGenerator.jsx:53-70 | Applying a foreground to a stored range keeps that range's background. The stored entry gets the picked foreground and the current flags. |
| `TextGenerator.ApplyBgKeepsForeground` | src/components/TextGenerator.jsx:53-70 | Applying a background to a stored range keeps that range's foreground. The stored entry gets the picked background and the current flags. |
| `TextGenerator.ApplyToSelection` | src/components/TextGenerator.jsx:44-71 | An empty selection changes nothing. Otherwise the store's list becomes the add of the built selection, and the invariant is kept. |
| `Ansi.HexToAnsi` | src/components/TextGenerator.jsx:125-126 | An empty colour maps to the fallback code 15. |
| `Ansi.RandomCode` | src/components/TextGenerator.jsx:128 | The drawn code lies in 16..246 for every draw in [0, 1). This is the range of the expression: 231 values starting at 16. |
| `Ansi.Substring` | src/components/TextGenerator.jsx:94 | JavaScript `substring`: an in-range call is the slice, and every character comes from the text. |
| `Ansi.NatToStringRoundTrip` | src/components/TextGenerator.jsx:105-107 | The decimal numeral printed for a colour code reads back as that code. |
| `Ansi.FlagsRoundTrip` | src/components/TextGenerator.jsx:102-108 | The bold and underline flags can be read back from the SGR parameters of a segment. |
| `Ansi.VisibleEncode` | src/components/TextGenerator.jsx:91-118 | For escape-free segment texts, the visible text of the encoded segments is their texts joined in order. |
| `Ansi.SegmentsCover` | src/components/TextGenerator.jsx:86-119 | For sorted, consistent, in-bounds selections, the segment texts joined in order are exactly the text. |
| `Ansi.SegmentStyles` | src/components/TextGenerator.jsx:93-118 | For any selections, every segment carries either the default style without flags or the style of one of the selections, and holds only characters of the text. |
| `Ansi.SegmentCells` | src/components/TextGenerator.jsx:86-119 | For sorted, consistent, in-bounds selections, the partition shows the text position by position. A position covered by a selection has that selection's style. A position no selection covers has the default style. |
| `Ansi.NonEmptyCells` | src/components/TextGenerator.jsx:173-220 | Dropping empty segments changes no position and no style. |
| `Ansi.NonEmptyConcat` | src/components/TextGenerator.jsx:173-220 | Dropping empty segments keeps the joined text and leaves no empty segment. |
| `TextGenerator.AnsiBody` | src/components/TextGenerator.jsx:85-119 | The loop's result is the opening fence followed by the encoding of the segment partition. |
| `TextGenerator.GenerateAnsiText` | src/components/TextGenerator.jsx:73-122 | The result is `AnsiText`. An empty text gives the empty fence. With text and no selections the result is the literal at line 82 unsubstituted, and a reader sees `ansiCode}m${text}` inside the fence whatever the text is. |
| `TextGenerator.AnsiShowsText` | src/components/TextGenerator.jsx:85-121 | With selections, the visible ANSI output is exactly the fence around the text. |
| `TextGenerator.AsWrittenShowsPlaceholder` | src/components/TextGenerator.jsx:82 | As written, ESC `[$` `{` is one control sequence, so the no-selection output shows `ansiCode}m${text}` inside the fence whatever the text is. |
| `TextGenerator.AsWrittenLosesText` | src/components/TextGenerator.jsx:82 | As written, the no-selection output for "Hello" does not show "Hello". |
| `TextGenerator.WithoutSelectionsShowsText` | src/components/TextGenerator.jsx:77-83 | Corrected, the no-selection output shows exactly the text inside the four-backtick fence. |
| `TextGenerator.CorrectedShowsText` | src/components/TextGenerator.jsx:73-122 | With the no-selection output corrected, the visible output of the whole encoder is exactly the text inside its fence, with or without selections. |
| `TextGenerator.PreviewBody` | src/components/TextGenerator.jsx:165-241 | The loop's spans are the non-empty segments of the same partition the encoder uses. |
| `TextGenerator.RenderPreviewText` | src/components/TextGenerator.jsx:144-242 | An empty text gives no spans. With no selections there is one span in the default colours with the current flags. Otherwise the spans are the encoder's partition without its empty segments. |
| `TextGenerator.PreviewCoversText` | src/components/TextGenerator.jsx:144-241 | For sorted, consistent, in-bounds selections, the spans spell exactly the text and none is empty. |
| `TextGenerator.PreviewCells` | src/components/TextGenerator.jsx:165-241 | With selections stored, each position of the preview shows the text's character. A covered position has its selection's style. Any other position has the default colours without flags. |
| `TextGenerator.ValidSelections` | src/components/TextGenerator.jsx:245-248 | The reconciler's filter never lengthens the list. |
| `TextGenerator.ShouldClearIff` | src/components/TextGenerator.jsx:245-250 | The filter drops something exactly when some selection starts or ends past the text. |
| `TextGenerator.ReconciledInBounds` | src/components/TextGenerator.jsx:244-253 | If every stored range is non-empty and starts at 0 or later, then whatever the reconciler keeps lies within the text. This is the in-bounds condition the renderers' lemmas assume. |
| `TextSlice.AddKeepsProper` | src/store/textSlice.js:55-82 | Adding a non-empty range keeps every stored range non-empty and starting at 0 or later. |
| `TextGenerator.Reconcile` | src/components/TextGenerator.jsx:244-253 | All selections are cleared when one falls outside the text, and nothing changes otherwise. Afterwards every selection lies within the text. |
| `Scenarios.OverlapDeletesWhole` | src/store/textSlice.js:55-65 | Adding [2,8) to a store holding [0,5) deletes [0,5) whole rather than clipping it. |
| `Scenarios.IdenticalBoundsMerge` | src/store/textSlice.js:67-76 | Adding [0,5) again replaces the stored [0,5) entry's colours and flags. |
| `Scenarios.HelloWorldSegments` | src/components/TextGenerator.jsx:91-119 | "Hello World" with [0,5) and [6,11) splits into "Hello", a default-style " " and "World". |
| `Scenarios.ShrinkClearsAll` | src/components/TextGenerator.jsx:244-253 | With [3,8) and [12,18) stored and a text of length 10, the reconciler clears both. |

## Left out

- Ansi.HexToAnsi: the random branch is the parameter `palette`. Each call in the original draws
  anew, so two uses of one colour can get different codes. The model gives a colour one code per
  rendering. The range of a drawn code is stated separately by `Ansi.RandomCode`.
- The copy-to-clipboard action, the alert and the console logging are browser I/O and are not
  modelled.
- The textarea reads, the Mantine layout and the CSS of the spans are left out. So are the React
  keys, and the scheduling of the effect (it runs after a text change; here `Reconcile` is a
  method its caller invokes). The `App.jsx` wiring and Redux/Immer are left out as well.
- The preview's `null` for an empty text is the empty span list. Its single span for a text
  without selections is a one-element list.
- TextSlice.TextStore.AddSelection: payloads always carry both colours, because the only caller
  supplies them. A payload without a colour key is not modelled. An absent flag is `None`.
- TextSlice.TextStore.AddSelection and TextSlice.TextStore.RemoveSelection require `Valid()`, the
  class invariant. The constructor establishes it and every method keeps it.
- Selections.SortByStart: stability is not stated as a separate property. `Sort` is a stable
  insertion sort by construction.
- TextGenerator.BuildSelection: the button's type is either "fg" or "bg". Other strings never
  reach it.
- Text positions count Unicode scalar values, while JavaScript counts UTF-16 code units. The two
  differ only for characters outside the Basic Multilingual Plane. Positions are integers; the
  non-integer numbers JavaScript allows are not modelled.
- TextGenerator.AnsiShowsText and TextGenerator.WithoutSelectionsShowsText assume a text without
  ESC characters. A text that holds escape sequences of its own is interpreted by the reader as
  well.

## Findings

| source | as written | input that shows it | evidently intended | confidence | as-written member | corrected member |
|---|---|---|---|---|---|---|
| src/components/TextGenerator.jsx:82 | The no-selection output is a double-quoted string, so `${ansiCode}` and `${text}` are not substituted. ESC `[$` `{` then reads as one control sequence. Every text gives the same message. | The text "Hello" with no selections shows "````ansi\nansiCode}m${text}\n````" instead of "Hello". | A template literal: the whole text as one SGR segment in the default colours with the current flags, inside the fence. | high; not executed | `TextGenerator.AsWrittenLosesText` | `TextGenerator.CorrectedShowsText` |

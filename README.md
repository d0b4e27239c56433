# Mention editor model

The repository is a browser text box that recognises `@mention` triggers
while the user types. It opens a search dropdown for the text after the
trigger. When a name is chosen, it is spliced into the text and recorded as
a highlighted mention span. All of that bookkeeping lives in the `App`
component of `src/App.js`, and this project models it in Dafny.

- `wrappers.dfy`: `Option`.
- `js_text.dfy`: the JavaScript string semantics the component relies on:
  - the clamping rules of `slice` and `substring`;
  - the `\s` class;
  - the text a template literal makes of `str[k]`, which is `"undefined"`
    past the end.
- `triggers.dfy`: trigger detection:
  - `checkSpecialCharacters` as membership in an explicit character set;
  - `checkAtSignAvailable`;
  - `getNearestAtData` as a loop method;
  - the decision of `checkMentionTag` as a function `NextTrigger`.
- `spans.dfy`: mention spans:
  - the one-pass adjustment of `modifyMentions`, a loop method proved equal
    to the specification function `Adjusted`;
  - the stable sort by `start`;
  - the splice that `onMention` builds.
- `render.dfy`: `renderByMention` as a list of `(text, highlighted)`
  segments.
- `editor.dfy`: the component as a class `Editor`. Its fields are `value`,
  `prevValue`, `prevSelection`, `atPos`, `mentions`, `hasInput` and `query`.
  `query` stands for the search box's state, and `None` means the dropdown
  is hidden. Each event handler is a method and runs as one atomic step.

Behaviour of the source that the model keeps as written:
- **Typing a trigger.** Typing `@` at the start of the text or after
  whitespace only records `atPos` (src/App.js:139). It does not touch the
  search box's query, so the dropdown opens on the next character.
- **The rescan branch.** The branch that rescans with `getNearestAtData`
  (src/App.js:147-156) is reached only when `atPos` is undefined. Then the
  loop guard `curr >= 0` (src/App.js:9) is false at once, the scan returns
  null, and nothing changes. `NextTrigger` leaves the state unchanged there.
- **When spans stop being well formed.** The pass of `modifyMentions`
  keeps spans in bounds, sorted and disjoint when they were so for
  `prevValue` and the edit satisfies `Spans.EditFits`
  (`Spans.AdjustedKeepsWellFormed`). The source gives no such guarantee
  across events, and spans can end up past the end of the text, on the
  wrong characters, or overlapping. For example:
  - a forward delete of several characters at once falls outside
    `EditFits`;
  - a key-up whose caret ends at or before the trigger (src/App.js:167-168)
    cancels the trigger and skips the pass, even when an input is pending.
    `MentionEditor.ShiftScenario` and `MentionEditor.CancelScenario` show
    this. Typing `@` before a mention shifts it; a backspace then leaves it
    one place to the right, past the end of the text;
  - several inputs before one key-up (a held key, or a fast typist whose
    next key goes down before the last one comes up). Each `onInput`
    overwrites `prevValue` (src/App.js:101), so `diff` (src/App.js:108)
    counts only the last input, while the spans still belong to the text
    from before the first one. `MentionEditor.KeyRepeatScenario` shows a
    held backspace in "ab Bob" leaving the mention on "Bob" past the end of
    " Bob". `MentionEditor.FastTypingScenario` shows "ab" typed before
    "Hi Bob" moving that mention onto " Bo";
  - choosing a name while mentions lie after the trigger, as the next item
    describes.
- **Choosing a name does not shift later spans.** `onMention` appends the
  new span and sorts (src/App.js:195-199), but it does not move the spans
  that lie after the splice point.
- **Choosing a name reads the old text.** `onMention` splices into the text
  from before the last input (src/App.js:187-193).
  `MentionEditor.ChoiceScenario` shows this. "x" was typed after the
  trigger of "Hi @ more". Choosing "Alice" gives "Hi Alice more", the span
  `{3, 7}` and the caret at 8.
- **A key-up with no selection seen yet.** Without a key-down or a click
  first (a paste from the context menu, say), `prevSelection` is undefined.
  No mention can exist yet, so the pass reads no selection and returns
  none, and the trigger check still runs
  (`MentionEditor.UnseenSelectionScenario`).

## Model

| member | source | states |
|---|---|---|
| JsText.Slice | src/App.js:190-192 | `slice` with both ends inside the string is the plain subsequence, and its result is never longer than the string |
| JsText.SliceFrom | src/App.js:192 | `slice(begin)` is the suffix from `begin`, and it is empty from the end on |
| JsText.Substring | src/App.js:141 | `substring` is the subsequence between its arguments in either order, clamped to the string |
| JsText.IsWhitespace | src/App.js:71 | the `\s` class: space, tab, newline and carriage return match; letters, digits and `@` do not |
| JsText.CharText | src/App.js:10-11 | `${str[k]}` is the character inside the string, and it equals `"@"` exactly when that character is `@` |
| JsText.SpelledInside | src/App.js:17 | prepending characters from `hi - 1` down to `lo` spells exactly `str[lo..hi]` inside the string |
| Triggers.HasSpecialCharacter | src/App.js:66-69 | true iff some character is in the special set (which includes `@` and newline); false for the empty string and for letters, digits and spaces |
| Triggers.AtSignAvailable | src/App.js:71 | true iff the offset is 0 or the `\s` test matches the text of the previous character, which is `"undefined"` (no whitespace) past the end |
| Triggers.GetNearestAtData | src/App.js:6-22 | `null` iff there is no `@` in `[0, pos]`; otherwise the nearest `@` at or before `pos`, with no `@` after it up to `pos`, and the query is the text after it up to `pos` (the exact slice when `pos` is inside the string) |
| Triggers.TypedTriggerTest | src/App.js:137-138 | testing the text of `v[end - 1]` against `"@"` and `checkAtSignAvailable` is the same as an `@` typed just before the caret at the start or after whitespace |
| Triggers.NextTrigger | src/App.js:136-158 | an `@` typed at the start or after whitespace activates at `end - 1` and keeps the query; with an active trigger and no typed `@`, the result is exactly the substring after the trigger forwarded as the query, or both fields cleared when that substring has a special character; with no trigger nothing changes; a forwarded query never has a special character |
| Triggers.AtAfterWordDoesNotActivate | src/App.js:136-139 | an `@` typed right after a non-whitespace character never becomes the trigger |
| Spans.FateOf | src/App.js:110-120 | only a length change can keep a span in place; with no length change a span is shifted iff it starts after the old selection end; a dropped span never starts after it |
| Spans.Shifted | src/App.js:116-119 | shifting a span by `diff` keeps its width |
| Spans.Moved | src/App.js:110-120 | one span yields no span when dropped and exactly one otherwise |
| Spans.Adjusted | src/App.js:109-121 | the pass never yields more spans than it is given |
| Spans.ModifyMentions | src/App.js:105-124 | the loop returns the specification pass `Adjusted` for `diff` equal to the new length minus the previous length |
| Spans.AdjustedTracksSources | src/App.js:109-121 | the pass adds no span and keeps input order; each output is its source kept or shifted by `diff` with the same width, and every span not dropped is produced |
| Spans.SurvivorsOrdered | src/App.js:109-121 | the indices of the surviving spans are increasing, in range, and exactly those of the spans not dropped |
| Spans.AdjustedAtSurvivors | src/App.js:114-119 | the span produced for each surviving index is its source, unchanged when kept and shifted by `diff` otherwise |
| Spans.AdjustedAllKept | src/App.js:110-114 | when the edit lies after every span, the pass returns the spans unchanged |
| Spans.AdjustedWithoutLengthChange | src/App.js:110-120 | with `diff == 0` a span survives, unchanged, iff it starts after the old selection end |
| Spans.AdjustedKeepsWellFormed | src/App.js:105-124 | for an edit satisfying `EditFits`, the pass maps in-bounds, sorted, disjoint spans of the old text to such spans of the new text |
| Spans.InsertByStart | src/App.js:196-198 | inserting one span lengthens the list by one |
| Spans.SortByStart | src/App.js:196-198 | the sort keeps the number of spans |
| Spans.InsertByStartElements | src/App.js:196-198 | inserting one span adds exactly that span (length, membership and multiset) |
| Spans.InsertByStartSorts | src/App.js:196-198 | inserting after the spans that start no later keeps a list sorted by `start` |
| Spans.SortByStartSorts | src/App.js:196-198 | the sort returns a permutation of its input sorted by `start` |
| Spans.AddSorted | src/App.js:196-198 | the old spans plus the new one, sorted by `start`, are a permutation of the old spans and the new one |
| Spans.SortByStartOfSorted | src/App.js:196-198 | sorting an already sorted list changes nothing |
| Spans.InsertAtEnd | src/App.js:196-198 | a span that starts no earlier than all others is inserted last |
| Spans.AppendThenSort | src/App.js:196-198 | appending to a sorted list and sorting is the stable insertion of the new span |
| Spans.Splice | src/App.js:189-193 | the new text is the previous text up to `at`, the name, then the previous text from `selEnd`, for in-range offsets; and the name sits exactly at offsets `at` to `at` plus its length |
| Spans.MentionAddedAfterOthers | src/App.js:189-199 | when every mention ends before the trigger, the new span is simply added last and the list is well formed for the spliced text |
| Render.RenderByMention | src/App.js:216-272 | with no mention, one plain segment holding the whole text; for any spans, exactly one highlighted segment per mention, in order, holding `slice(start, end + 1)` of the text |
| Render.RenderShowsText | src/App.js:216-272 | for well-formed spans the segments concatenate to the text, and the highlighted ones are the spans' texts, one per span, in order; with no spans there is one plain segment holding the whole text |
| Render.RenderFromConcat | src/App.js:230-270 | the fragments from mention `i` on show the text from that mention's start (and the lead before the first one) |
| Render.RenderFromHighlights | src/App.js:230-270 | for any spans, the fragments from mention `i` on highlight exactly `slice(start, end + 1)` of mentions `i` onwards, one each, in order |
| Render.FragmentConcat | src/App.js:232-268 | one mention's fragment shows the text from its start to the next mention, or to the end for the last one |
| Render.FragmentHighlights | src/App.js:232-268 | one mention's fragment highlights exactly that mention's `slice(start, end + 1)` |
| MentionEditor.Editor.constructor | src/App.js:74-84 | the initial state: empty text, no previous text, selection or trigger, no mentions, no pending input, dropdown hidden |
| MentionEditor.Editor.OnKeyDown | src/App.js:86-94 | the selection snapshot becomes the current selection and nothing else changes |
| MentionEditor.Editor.OnClick | src/App.js:178-184 | the same snapshot as a key-down |
| MentionEditor.Editor.OnInput | src/App.js:96-103 | an input is pending, the previous text is the old text, and the text is the new one |
| MentionEditor.Editor.Reset | src/App.js:126-129 | the trigger and the query are cleared |
| MentionEditor.Editor.CheckMentionTag | src/App.js:136-158 | the new trigger and query are `NextTrigger` of the old ones |
| MentionEditor.Editor.ApplyInput | src/App.js:169-172 | with a selection seen, the mentions become `Adjusted` of the old ones, and stay well formed for an edit satisfying `EditFits`; with none, there are no mentions; then the trigger and query become `NextTrigger` of the old ones |
| MentionEditor.Editor.OnKeyUp | src/App.js:160-176 | a caret at or before the trigger clears the trigger and query and leaves the mentions as they were, even with an input pending; otherwise a pending input adjusts the mentions by `Adjusted` (none when no selection was seen) and updates the trigger by `NextTrigger`, keeping the mentions well formed for an edit satisfying `EditFits`; with no input nothing changes; no input is pending afterwards |
| MentionEditor.Editor.OnMention | src/App.js:186-207 | with no previous text nothing changes; otherwise the text is the splice of the previous text, with the name covering the offsets from `atPos` on, the mentions are the old ones plus the new span sorted by `start`, the caret goes after the name, and the trigger and query are cleared |
| MentionEditor.Editor.OnBlur | src/App.js:274-278 | leaving for anything but the suggestion list hides the dropdown; otherwise the query is kept |

## Left out

- `getCursorXY` and the `atPos` effect that positions the dropdown (src/App.js:24-64, 131-134) are not modelled. They measure DOM layout.
- `onChange` and its `autosize` height handling (src/App.js:209-214), focus handling and all JSX styling are not modelled. They are UI work done through a foreign library.
- `src/searchBox.js` is not part of this model: the debounce timer, the network fetch and the list rendering. Its one contract for the editor, a dropdown that shows iff the query is a string, is the `query: Option<string>` field.
- React's asynchronous state batching and the `new String` wrappers are not modelled. Each handler is one atomic step over the state as it was when the event arrived, and strings are plain.
- Offsets count characters of a `seq<char>`, not UTF-16 code units.
- The regular-expression engine is not modelled. `checkSpecialCharacters` is membership in an explicit set, and `\s` is an explicit predicate on characters.
- MentionEditor.Editor.OnKeyUp: the mentions are proved to stay well formed only when the pass runs, the spans were well formed for `prevValue`, and the edit satisfies `Spans.EditFits`. The source can break each of these, for example with the cancel branch, several inputs before one key-up, a forward delete of several characters, or a name chosen before other mentions. Spans then lie past the end of the text, on the wrong characters, or overlap (see `MentionEditor.CancelScenario`, `MentionEditor.KeyRepeatScenario` and `MentionEditor.FastTypingScenario`).
- MentionEditor.Editor.OnMention: it requires an open dropdown (`query` set), because the source calls it only from a list item that is rendered while the query is a string.
- MentionEditor.Editor.OnMention: it requires a seen selection whenever there is previous text. Without one, the source reads `selectionEnd` of an undefined selection (src/App.js:192) and throws; the model does not cover that failure.
- MentionEditor.Editor.OnMention: its contract names the sorted list. The fact that this list is a permutation of the old spans plus the new one is stated separately, in `Spans.AddSorted`.
- MentionEditor.Editor.OnMention: moving the caret with `setSelectionRange` becomes the returned offset.
- Spans.SortByStartSorts: the stability of `Array.prototype.sort` is modelled by the definition of the sort, which inserts after equal starts, but no lemma states it as a property.

# AvalonEditTextContainer, modelled in Dafny

RoslynPad's `AvalonEditTextContainer` connects an AvalonEdit `TextDocument` with Roslyn. The document is a buffer edited in place. Roslyn sees the same text as an immutable `SourceText`. The container keeps the two in step in both directions:

- **Forward.** Every document edit reaches `DocumentOnChanged` through the document's `Changed` event. The handler turns the edit into a Roslyn `TextChange` and applies it to the current text with `WithChanges`. It then raises `TextChanged` with the old text, the new text and the change range. It does nothing while the re-entrancy guard is set.
- **Reverse.** `UpdateText(newText)` sets the guard and opens an update group. It replays Roslyn's diff of `newText` against the current text into the document, one `Replace` at a time. Each change's start is shifted by `documentOffset`, the net length change of the changes already replayed. Along the way a working caret follows the per-change caret rule. On success it stores `newText` as the current text. Its finally block clears the guard, clamps the caret offset, writes it to the editor and closes the update group.
- **Wrapper.** The nested `AvalonEditSourceText` wraps a Roslyn text and records the owning container. It delegates every read to the text it wraps and keeps itself around the results of `GetSubText` and `WithChanges`. `GetChangeRanges`, `GetTextChanges` and `ContentEqualsImpl` (lines 145, 147, 151) unwrap one level of the text passed to them; `Equals` (line 155) passes its argument on without unwrapping.

The Dafny modules:

- `Wrappers`: `Option`.
- `TextEdits`: the edit values (`TextSpan`, `TextChange`, `TextChangeRange`, `DocumentChange`).
  - `ApplyAll` is what a batch of changes means to Roslyn: all applied at once, in the coordinates of the old text, sorted and not overlapping.
  - `Replay` is what the replay loop of `UpdateText` does to the buffer, including the exception that ends it.
  - The main theorem `ReplayMatchesApplyAll` says the two agree on every ordered batch.
- `CaretRule`:
  - the per-change caret rule `AdjustCaret`, and the working caret `CaretAfter` over a batch;
  - the clamp `WrittenCaret`;
  - the caret tracking the loop evidently was for, `TrackedCaret`.
- `SourceTexts`: a `SourceText` is a plain Roslyn snapshot, or an `AvalonEditSourceText` wrapper with an optional owner. The wrapper's `Length`, indexer, `ToString`, `ToString(span)`, `GetSubText`, `WithChanges`, `ContentEqualsImpl`, `Container` and `GetInnerSourceText` are functions over it (`Content`, `CharAt`, `SpanText`, ...); the members that are not are listed under Left out.
- `TextContainer`: classes for the document (`TextDocument`), the editor caret (`Editor`) and the container (`AvalonEditTextContainer`).
  - The container's methods update its fields in place.
  - `DocumentReplace` is a document `Replace` followed by the `Changed` callback. It is how the replay loop reaches `DocumentOnChanged`, so the guard's suppression of the forward path is proved, not assumed.

Behaviours of the code that are easy to miss; the model follows the code:

- After `UpdateText` the current text is `newText` exactly as passed in (line 92). It is not re-wrapped with the container as owner. So a plain Roslyn `newText` no longer reports this container (it reports its own Roslyn container, `None` in the model): `UpdateText` ensures `Container(currentText) == None` then, whereas the constructor and the forward path keep it the owning container.
- The caret written back is the caret read on entry, clamped (lines 65, 97-102). It is not the working caret the loop adjusts, although the doc comment at lines 22-24 says the editor's caret offset will be updated (see Findings).

Inputs the model receives as parameters:

- The diff `newText.GetTextChanges(_currentText)` is the `changes` parameter of `UpdateText`, with no precondition. What holds for an actual Roslyn diff is stated as conditional postconditions: the batch is `Ordered` and takes the current text to `newText`.
- The container's identity is the `id` given to its constructor.

## Model

| member | source | states |
|---|---|---|
| TextEdits.ApplyAll | src/RoslynPad.Editor.Windows/AvalonEditTextContainer.cs:159-161 | applying an ordered batch at once changes the length by the batch's net length change |
| TextEdits.SingleChange | src/RoslynPad.Editor.Windows/AvalonEditTextContainer.cs:48-50 | a single change inside the text is an ordered batch, and applying it replaces exactly its span by its new text |
| TextEdits.ReplayAgainstApplyFrom | src/RoslynPad.Editor.Windows/AvalonEditTextContainer.cs:71-90 | after any already-replayed prefix whose length matches the running offset, replaying the rest of an ordered batch completes and yields the prefix followed by the rest applied at once |
| TextEdits.ReplayMatchesApplyAll | src/RoslynPad.Editor.Windows/AvalonEditTextContainer.cs:66-90 | replaying an ordered batch in place with the running offset never throws and ends with exactly the text that applying the batch at once gives |
| TextEdits.ReplayLogOffsets | src/RoslynPad.Editor.Windows/AvalonEditTextContainer.cs:73 | the j-th replace the document performs is change j, at its start shifted by the net length change of changes 0..j-1, removing its span length and inserting its new text |
| TextEdits.ReplayStepApplied | src/RoslynPad.Editor.Windows/AvalonEditTextContainer.cs:73-89 | one successful loop iteration (replace at the shifted start, advance the offset by the change's length change) keeps the whole replay equal to the edits done so far followed by the replay of the remaining changes |
| TextEdits.ReplayStepThrew | src/RoslynPad.Editor.Windows/AvalonEditTextContainer.cs:73 | a replace outside the document ends the replay there: no edit beyond those already done, result not completed |
| CaretRule.CaretStep | src/RoslynPad.Editor.Windows/AvalonEditTextContainer.cs:75-89 | one loop iteration of the caret rule, at the change's shifted start, is one step of the working caret over the remaining changes |
| CaretRule.AdjustCaretStaysInside | src/RoslynPad.Editor.Windows/AvalonEditTextContainer.cs:76-88 | for a caret inside the buffer, the rule leaves it inside the buffer after the replacement |
| CaretRule.CaretAfterStaysInside | src/RoslynPad.Editor.Windows/AvalonEditTextContainer.cs:71-90 | through a completed replay the working caret never leaves the buffer |
| CaretRule.WrittenCaret | src/RoslynPad.Editor.Windows/AvalonEditTextContainer.cs:97-100 | the written caret lies in [0, newText.Length]; it is the entry caret when that lies in range, 0 below, newText.Length above |
| CaretRule.TrackedCaret | src/RoslynPad.Editor.Windows/AvalonEditTextContainer.cs:76-89 | the working caret after an ordered batch, clamped, lies inside the new text and equals the unclamped working caret when the entry caret was inside the old text |
| CaretRule.CaretFollowHead | src/RoslynPad.Editor.Windows/AvalonEditTextContainer.cs:76-80 | a change ending at or before the caret moves the caret by its length change, keeps the text after the caret and leaves the rest of the replay unchanged |
| CaretRule.CaretAfterKeepsFollowingText | src/RoslynPad.Editor.Windows/AvalonEditTextContainer.cs:76-80 | when every change ends at or before the caret, the working caret after the replay stands in front of the same text that followed it before |
| CaretRule.TrackedCaretKeepsFollowingText | src/RoslynPad.Editor.Windows/AvalonEditTextContainer.cs:71-90 | with the tracked caret, an ordered batch of changes all before the caret leaves the caret in front of the same following text |
| CaretRule.WrittenCaretLosesFollowingText | src/RoslynPad.Editor.Windows/AvalonEditTextContainer.cs:65 | in "hello world" with caret 8, deleting [2,5): the tracked caret is 5 and keeps "rld" after it; the written caret is 8, the end of "he world", and does not |
| CaretRule.CaretRuleExamples | src/RoslynPad.Editor.Windows/AvalonEditTextContainer.cs:76-88 | caret 8 in "hello world" becomes 10 after inserting "XX" at 0, 5 after deleting [2,5), 6 after replacing [6,11) by "w", 5 after replacing [0,5) by "hi"; clamping to an empty text gives 0 |
| SourceTexts.Length | src/RoslynPad.Editor.Windows/AvalonEditTextContainer.cs:129 | a text's length, through any wrapping, is the length of its characters |
| SourceTexts.CharAt | src/RoslynPad.Editor.Windows/AvalonEditTextContainer.cs:131 | the indexer, through any wrapping, is the character at that position |
| SourceTexts.SpanText | src/RoslynPad.Editor.Windows/AvalonEditTextContainer.cs:142 | ToString(span), through any wrapping, is the characters under the span |
| SourceTexts.GetSubText | src/RoslynPad.Editor.Windows/AvalonEditTextContainer.cs:133 | a sub-text has the characters under the span; a wrapper yields a wrapper with the same owner and the same Container |
| SourceTexts.WithChanges | src/RoslynPad.Editor.Windows/AvalonEditTextContainer.cs:159-162 | the changed text has the batch applied at once; a wrapper yields a wrapper with the same owner and the same Container |
| SourceTexts.GetInnerSourceText | src/RoslynPad.Editor.Windows/AvalonEditTextContainer.cs:164-167 | unwrapping returns the wrapped text for a wrapper and the argument itself otherwise, keeping the characters |
| SourceTexts.ContentEquals | src/RoslynPad.Editor.Windows/AvalonEditTextContainer.cs:151 | comparing a wrapper with any text, wrapped or not, is true exactly when their characters are equal |
| SourceTexts.DerivedTextsKeepOwner | src/RoslynPad.Editor.Windows/AvalonEditTextContainer.cs:153 | every text reached from a wrapper around a plain snapshot by any chain of GetSubText and WithChanges (lines 133, 161) is again a wrapper with the same owner around a plain snapshot, and its Container is that owner |
| SourceTexts.UnwrapOneLevel | src/RoslynPad.Editor.Windows/AvalonEditTextContainer.cs:166 | unwrapping a doubly wrapped text (which the container never builds, but a caller may pass) removes one level, and a second unwrap the other |
| TextContainer.TextDocument.Replace | src/RoslynPad.Editor.Windows/AvalonEditTextContainer.cs:73 | a replace inside the document splices the text and reports the edit; outside it throws and changes nothing |
| TextContainer.TextDocument.BeginUpdate | src/RoslynPad.Editor.Windows/AvalonEditTextContainer.cs:62 | opens one more update group, text unchanged |
| TextContainer.TextDocument.EndUpdate | src/RoslynPad.Editor.Windows/AvalonEditTextContainer.cs:103 | closes one update group, text unchanged |
| TextContainer.AvalonEditTextContainer.constructor | src/RoslynPad.Editor.Windows/AvalonEditTextContainer.cs:29-35 | the current text is a wrapper owned by this container around the document's text, in sync with the document, so its Container is this container; subscribed, guard clear, no editor, no events |
| TextContainer.AvalonEditTextContainer.Dispose | src/RoslynPad.Editor.Windows/AvalonEditTextContainer.cs:37-40 | unsubscribes and changes nothing else |
| TextContainer.AvalonEditTextContainer.DocumentOnChanged | src/RoslynPad.Editor.Windows/AvalonEditTextContainer.cs:42-53 | with the guard set nothing changes; otherwise the current text becomes its WithChanges by the reported edit (null insertion read as empty), keeping its Container and its wrapping around a plain snapshot, and one TextChanged event with old text, new text and change range is appended |
| TextContainer.AvalonEditTextContainer.DocumentReplace | src/RoslynPad.Editor.Windows/AvalonEditTextContainer.cs:34 | a document edit while subscribed and unguarded splices the current text the same way (so a current text in sync with the document stays in sync, and a stale one takes the edit too) and raises exactly one event; when guarded or unsubscribed the current text and the events are untouched; only an edit inside the document but outside the current text is excluded |
| TextContainer.AvalonEditTextContainer.ReplayChanges | src/RoslynPad.Editor.Windows/AvalonEditTextContainer.cs:71-90 | the loop performs exactly the edits of Replay and ends with its text; it completes exactly when Replay does; the working caret is CaretAfter; the guard suppresses every TextChanged event |
| TextContainer.AvalonEditTextContainer.Finally | src/RoslynPad.Editor.Windows/AvalonEditTextContainer.cs:94-104 | clears the guard, writes the clamped caret to the editor read on entry, closes one update group, and leaves text and events alone |
| TextContainer.AvalonEditTextContainer.UpdateText | src/RoslynPad.Editor.Windows/AvalonEditTextContainer.cs:59-105 | on every exit the guard is clear and update groups balance; no TextChanged event is raised; the document ends as Replay says; newText becomes current exactly when the replay completes; the editor receives the entry caret clamped; an empty diff edits nothing; a correct diff leaves document and current text in sync; a stored plain Roslyn text reports no Container |
| TextContainer.AvalonEditTextContainer.UpdateTextKeepingCaret | src/RoslynPad.Editor.Windows/AvalonEditTextContainer.cs:59-105 | UpdateText with the working caret written back: for a correct diff the editor receives the tracked caret |

## Left out

- The diff `newText.GetTextChanges(_currentText)` (line 69), and the wrapper's `GetTextChanges` and `GetChangeRanges` (lines 144-147): Roslyn's diff algorithm is not part of this model. `UpdateText` takes the changes as a parameter. Its guarantees for a correct diff are stated under the condition that the batch is ordered and takes the current text to `newText`.
- `CopyTo`, `Write`, `Encoding`, `GetLinesCore`, `ToString()` (lines 122-127, 135-140, 149): these pass I/O, encodings and line tables straight through to the wrapped text. `ToString()` is the `Content` function.
- `Equals` and `GetHashCode` (lines 155-157): .NET object equality and hashing are not modelled.
- The public field `a` (line 55): it is never used.
- `TextChanged` (line 57): subscribers are not run. The event is modelled as the log `textChanged` of the arguments raised.
- The `Document`, `CurrentText` and `Editor` properties (lines 20-27) are the fields `document`, `currentText` and `editor`.
- The wrapper constructors (lines 112-120) are the `Wrapper` constructor around a `Snapshot`. A plain Roslyn text's own container belongs to no editor bridge and is modelled as `None`.
- AvalonEdit internals are not modelled: text anchors, undo, update-group events, the editor moving its own caret during document edits, and the WPF editor itself. `TextDocument` keeps only its text, its update depth and a log of replaces. `Editor` keeps only its caret offset.
- TextDocument.Replace: every in-range replace counts as a change and reaches the handler. The case where AvalonEdit skips an edit that changes nothing is not modelled.
- Exceptions other than a replace outside the document are not modelled: a failing diff, a null `newText`, a throwing event subscriber. The one modelled exception makes `UpdateText` report `ok == false`, and the finally block still runs.
- DocumentOnChanged, DocumentReplace: an edit outside the current text is excluded by their preconditions. There, Roslyn's `WithChanges` would throw. This happens only when the current text and the document are out of sync. `Synced` holds after the constructor, `DocumentReplace` keeps it while subscribed, and `UpdateText` restores it only for a correct diff. A replay that fails (`ok == false`) leaves the document partly edited while the current text stays the old one, so a later document edit may then fall outside it.
- Offsets are unbounded integers: 32-bit overflow of `int` offsets is not modelled.
- Threads, the UI dispatcher and object disposal beyond the subscription flag are not modelled.

## Findings

| source | as written | input that shows it | evidently intended | confidence | as-written member | corrected member |
|---|---|---|---|---|---|---|
| src/RoslynPad.Editor.Windows/AvalonEditTextContainer.cs:63-102 | the loop adjusts `caret` change by change, but the finally block writes `caretOffset`: the caret read on entry, only clamped. The adjusted caret is never used | document "hello world", editor caret 8 (before "rld"), newText "he world", so the diff deletes [2,5). The editor gets 8, the end of the text; the adjusted caret is 5, still before "rld" | write the adjusted caret (clamped) back, so the caret keeps its place in the text | not executed | CaretRule.WrittenCaretLosesFollowingText (TextContainer.AvalonEditTextContainer.UpdateText writes WrittenCaret of the entry caret) | CaretRule.TrackedCaretKeepsFollowingText (TextContainer.AvalonEditTextContainer.UpdateTextKeepingCaret writes TrackedCaret) |

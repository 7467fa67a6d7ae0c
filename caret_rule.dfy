/**
 * How AvalonEditTextContainer.UpdateText treats the editor caret: the rule
 * it applies to a working caret once per replayed change, the clamp it
 * applies to the caret it writes back, and the caret tracking that the rule
 * was evidently meant to feed.
 */
module CaretRule {
  import opened TextEdits

  /**
   * The per-change rule for a change applied to the buffer at `start`,
   * removing `oldLength` characters and inserting `newLength`: a caret at or
   * after the removed range moves with the length change; a caret inside it
   * that would fall past the inserted text goes back to `start`; any other
   * caret stays.
   */
  function AdjustCaret(caret: int, start: int, oldLength: nat, newLength: nat): int {
    if caret >= start + oldLength then caret + newLength - oldLength
    else if caret >= start then (if caret >= start + newLength then start else caret)
    else caret
  }

  /** The working caret after the rule is applied for each change in turn, at its shifted start. */
  function CaretAfter(caret: int, cs: seq<TextChange>, offset: int): int
    decreases |cs|
  {
    if cs == [] then caret
    else CaretAfter(AdjustCaret(caret, cs[0].Span.Start + offset, cs[0].Span.Length, |cs[0].NewText|),
                    cs[1..], offset + cs[0].Delta())
  }

  /** One step of the caret rule over the changes from i on. */
  lemma CaretStep(caret: int, cs: seq<TextChange>, i: nat, offset: int, caret': int, offset': int)
    requires i < |cs|
    requires caret' == AdjustCaret(caret, cs[i].Span.Start + offset, cs[i].Span.Length, |cs[i].NewText|)
    requires offset' == offset + |cs[i].NewText| - cs[i].Span.Length
    ensures CaretAfter(caret, cs[i..], offset) == CaretAfter(caret', cs[i + 1..], offset')
  {
    assert cs[i..][0] == cs[i];
    assert cs[i..][1..] == cs[i + 1..];
  }

  /** A caret inside the buffer before a replacement is inside it afterwards. */
  lemma AdjustCaretStaysInside(caret: int, docLength: nat, start: nat, oldLength: nat, newLength: nat)
    requires 0 <= caret <= docLength && start + oldLength <= docLength
    ensures 0 <= AdjustCaret(caret, start, oldLength, newLength) <= docLength - oldLength + newLength
  {
  }

  /** Through a whole replay, the working caret never leaves the buffer. */
  lemma {:induction false} CaretAfterStaysInside(doc: string, cs: seq<TextChange>, offset: int, caret: int)
    requires 0 <= caret <= |doc|
    requires Replay(doc, cs, offset).completed
    ensures 0 <= CaretAfter(caret, cs, offset) <= |Replay(doc, cs, offset).text|
    decreases |cs|
  {
    if cs != [] {
      var c := cs[0];
      var start := c.Span.Start + offset;
      var doc' := Splice(doc, start, c.Span.Length, c.NewText);
      var caret' := AdjustCaret(caret, start, c.Span.Length, |c.NewText|);
      AdjustCaretStaysInside(caret, |doc|, start, c.Span.Length, |c.NewText|);
      CaretAfterStaysInside(doc', cs[1..], offset + c.Delta(), caret');
    }
  }

  /** The caret UpdateText writes back: the caret read on entry, clamped to [0, newLength]. */
  function WrittenCaret(caretAtEntry: int, newLength: nat): (r: int)
    ensures 0 <= r <= newLength
    ensures 0 <= caretAtEntry <= newLength ==> r == caretAtEntry
    ensures caretAtEntry < 0 ==> r == 0
    ensures caretAtEntry > newLength ==> r == newLength
  {
    var c := if caretAtEntry < 0 then 0 else caretAtEntry;
    if c > newLength then newLength else c
  }

  /**
   * The caret that the rule computes, clamped like the written one: what
   * the loop over the changes evidently was for, had its result been
   * written back.
   */
  function TrackedCaret(caretAtEntry: int, s: string, cs: seq<TextChange>): (r: int)
    requires Ordered(cs, |s|)
    ensures 0 <= r <= |ApplyAll(s, cs)|
    ensures 0 <= caretAtEntry <= |s| ==> r == CaretAfter(caretAtEntry, cs, 0)
  {
    var k := CaretAfter(caretAtEntry, cs, 0);
    assert 0 <= caretAtEntry <= |s| ==> 0 <= k <= |ApplyAll(s, cs)| by {
      ReplayMatchesApplyAll(s, cs);
      if 0 <= caretAtEntry <= |s| {
        CaretAfterStaysInside(s, cs, 0, caretAtEntry);
      }
    }
    WrittenCaret(k, |ApplyAll(s, cs)|)
  }

  /** One step of `CaretAfterKeepsFollowingText`: a change that ends at or before the caret. */
  lemma CaretFollowHead(doc: string, cs: seq<TextChange>, offset: int, caret: int, doc': string, offset': int)
    requires cs != [] && cs[0].Span.End() <= caret
    requires 0 <= caret + offset <= |doc|
    requires Replay(doc, cs, offset).completed
    requires doc' == Splice(doc, cs[0].Span.Start + offset, cs[0].Span.Length, cs[0].NewText)
    requires offset' == offset + cs[0].Delta()
    ensures 0 <= caret + offset' <= |doc'|
    ensures doc'[caret + offset'..] == doc[caret + offset..]
    ensures CaretAfter(caret + offset, cs, offset) == CaretAfter(caret + offset', cs[1..], offset')
    ensures Replay(doc, cs, offset).text == Replay(doc', cs[1..], offset').text
    ensures Replay(doc', cs[1..], offset').completed
  {
    var c := cs[0];
    var start := c.Span.Start + offset;
    ReplayUnfold(doc, cs, offset);
    assert AdjustCaret(caret + offset, start, c.Span.Length, |c.NewText|) == caret + offset';
    SpliceKeepsTextAfter(doc, start, c.Span.Length, c.NewText, caret + offset);
  }

  /**
   * When every change ends at or before the caret, the rule moves the caret
   * so that the text after it is the text that followed it before.
   */
  lemma {:induction false} CaretAfterKeepsFollowingText(doc: string, cs: seq<TextChange>, offset: int, caret: int)
    requires forall j | 0 <= j < |cs| :: cs[j].Span.End() <= caret
    requires 0 <= caret + offset <= |doc|
    requires Replay(doc, cs, offset).completed
    ensures var k := CaretAfter(caret + offset, cs, offset);
            0 <= k <= |Replay(doc, cs, offset).text| && Replay(doc, cs, offset).text[k..] == doc[caret + offset..]
    decreases |cs|
  {
    if cs != [] {
      var c := cs[0];
      var doc' := Splice(doc, c.Span.Start + offset, c.Span.Length, c.NewText);
      var offset' := offset + c.Delta();
      CaretFollowHead(doc, cs, offset, caret, doc', offset');
      forall j | 0 <= j < |cs[1..]| ensures cs[1..][j].Span.End() <= caret {
        assert cs[1..][j] == cs[j + 1];
      }
      CaretAfterKeepsFollowingText(doc', cs[1..], offset', caret);
    }
  }

  /**
   * With the tracked caret, a batch whose changes all lie before the caret
   * leaves the caret in front of the same text as before.
   */
  lemma TrackedCaretKeepsFollowingText(s: string, cs: seq<TextChange>, caret: int)
    requires Ordered(cs, |s|)
    requires 0 <= caret <= |s|
    requires forall j | 0 <= j < |cs| :: cs[j].Span.End() <= caret
    ensures ApplyAll(s, cs)[TrackedCaret(caret, s, cs)..] == s[caret..]
  {
    ReplayMatchesApplyAll(s, cs);
    CaretAfterKeepsFollowingText(s, cs, 0, caret);
  }

  /**
   * The written caret does not do this: in "hello world" with the caret
   * before the 'r' at 8, deleting [2, 5) gives "he world"; the tracked caret
   * is 5, still before "rld", while the written caret stays at 8, the end.
   */
  lemma WrittenCaretLosesFollowingText()
    ensures var s, cs := "hello world", [TextChange(TextSpan(2, 3), "")];
            && Ordered(cs, |s|)
            && ApplyAll(s, cs) == "he world"
            && TrackedCaret(8, s, cs) == 5
            && WrittenCaret(8, |ApplyAll(s, cs)|) == 8
            && ApplyAll(s, cs)[TrackedCaret(8, s, cs)..] == s[8..]
            && ApplyAll(s, cs)[WrittenCaret(8, |ApplyAll(s, cs)|)..] != s[8..]
  {
    var s, cs := "hello world", [TextChange(TextSpan(2, 3), "")];
    SingleChange(s, cs[0]);
  }

  /** The rule on the four single-change edits of "hello world" with the caret at 8. */
  lemma CaretRuleExamples()
    ensures CaretAfter(8, [TextChange(TextSpan(0, 0), "XX")], 0) == 10
    ensures CaretAfter(8, [TextChange(TextSpan(2, 3), "")], 0) == 5
    ensures CaretAfter(8, [TextChange(TextSpan(6, 5), "w")], 0) == 6
    ensures CaretAfter(8, [TextChange(TextSpan(0, 5), "hi")], 0) == 5
    ensures WrittenCaret(8, 0) == 0
  {
  }
}

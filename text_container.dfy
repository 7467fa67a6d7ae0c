/**
 * AvalonEditTextContainer: the bridge between an editor document, edited
 * in place and announcing every edit, and the immutable Roslyn text that
 * stands for it. Edits of the document become new current texts and
 * TextChanged events; a replacement text from Roslyn is replayed into the
 * document as a batch of in-place edits.
 */
module TextContainer {
  import opened Wrappers
  import opened TextEdits
  import opened SourceTexts
  import opened CaretRule

  /**
   * The editor document, reduced to what the bridge uses: its text, the
   * nesting depth of BeginUpdate/EndUpdate, and (for the proofs) the edits
   * it has performed.
   */
  class TextDocument {
    var Text: string
    var UpdateDepth: nat
    ghost var Replacements: seq<DocumentChange>

    constructor (text: string)
      ensures Text == text && UpdateDepth == 0 && Replacements == []
    {
      Text := text;
      UpdateDepth := 0;
      Replacements := [];
    }

    method BeginUpdate()
      modifies this
      ensures UpdateDepth == old(UpdateDepth) + 1
      ensures Text == old(Text) && Replacements == old(Replacements)
    {
      UpdateDepth := UpdateDepth + 1;
    }

    /** Closing an update group that is not open is refused by the document. */
    method EndUpdate()
      requires UpdateDepth > 0
      modifies this
      ensures UpdateDepth == old(UpdateDepth) - 1
      ensures Text == old(Text) && Replacements == old(Replacements)
    {
      UpdateDepth := UpdateDepth - 1;
    }

    /**
     * Replace(offset, length, text). A range outside the text makes the
     * document throw (None here) and change nothing; otherwise the text is
     * spliced and the change that the Changed event reports is returned.
     */
    method Replace(offset: int, length: nat, text: string) returns (e: Option<DocumentChange>)
      modifies this
      ensures UpdateDepth == old(UpdateDepth)
      ensures 0 <= offset && offset + length <= |old(Text)| ==>
                && e == Some(DocumentChange(offset, length, Some(text)))
                && Text == Splice(old(Text), offset, length, text)
                && Replacements == old(Replacements) + [e.value]
      ensures !(0 <= offset && offset + length <= |old(Text)|) ==>
                e == None && Text == old(Text) && Replacements == old(Replacements)
    {
      if 0 <= offset && offset + length <= |Text| {
        var change := DocumentChange(offset, length, Some(text));
        Text := Splice(Text, offset, length, text);
        Replacements := Replacements + [change];
        e := Some(change);
      } else {
        e := None;
      }
    }
  }

  /** The text editor, reduced to its caret offset. */
  class Editor {
    var CaretOffset: int

    constructor (caret: int)
      ensures CaretOffset == caret
    {
      CaretOffset := caret;
    }
  }

  /** What a TextChanged event carries. */
  datatype TextChangeEventArgs = TextChangeEventArgs(OldText: SourceText, NewText: SourceText, Change: TextChangeRange)

  class AvalonEditTextContainer {
    const id: ContainerId
    const document: TextDocument
    /** When set, UpdateText writes its caret offset. */
    var editor: Editor?
    /** The current text (CurrentText). */
    var currentText: SourceText
    /** The re-entrancy guard, set while UpdateText replays changes into the document. */
    var updating: bool
    /** Whether DocumentOnChanged is subscribed to the document's Changed event. */
    var subscribed: bool
    /** Every TextChanged event raised so far, in order. */
    var textChanged: seq<TextChangeEventArgs>

    /** The current text is the document's text. */
    predicate Synced()
      reads this, document
    {
      Content(currentText) == document.Text
    }

    constructor (id: ContainerId, document: TextDocument)
      ensures this.id == id && this.document == document && editor == null
      ensures currentText == Wrapper(Some(id), Snapshot(document.Text))
      ensures Synced() && subscribed && !updating && textChanged == []
      ensures Flat(currentText) && Container(currentText) == Some(id)
    {
      this.id := id;
      this.document := document;
      editor := null;
      currentText := Wrapper(Some(id), Snapshot(document.Text));
      updating := false;
      subscribed := true;
      textChanged := [];
    }

    /** Dispose: unsubscribes from the document's Changed event. */
    method Dispose()
      modifies this
      ensures !subscribed
      ensures currentText == old(currentText) && updating == old(updating)
      ensures textChanged == old(textChanged) && editor == old(editor)
    {
      subscribed := false;
    }

    /**
     * The Changed handler. While the guard is set it does nothing. Otherwise
     * the current text becomes the current text with the reported edit
     * applied (a null insertion read as empty), and a TextChanged event is
     * raised with the old text, the new text and the edit's range.
     */
    method DocumentOnChanged(e: DocumentChange)
      requires !updating ==> e.Offset + e.RemovalLength <= Length(currentText)
      modifies this
      ensures updating == old(updating) && subscribed == old(subscribed) && editor == old(editor)
      ensures old(updating) ==> currentText == old(currentText) && textChanged == old(textChanged)
      ensures !old(updating) ==>
                var span := TextSpan(e.Offset, e.RemovalLength);
                && Ordered([TextChange(span, e.Inserted())], Length(old(currentText)))
                && currentText == WithChanges(old(currentText), [TextChange(span, e.Inserted())])
                && textChanged == old(textChanged)
                     + [TextChangeEventArgs(old(currentText), currentText, TextChangeRange(span, e.InsertionLength()))]
      ensures !old(updating) ==>
                && Content(currentText) == Splice(Content(old(currentText)), e.Offset, e.RemovalLength, e.Inserted())
                && Container(currentText) == Container(old(currentText))
                && (Flat(old(currentText)) ==> Flat(currentText))
    {
      if updating {
        return;
      }
      var oldText := currentText;
      var textSpan := TextSpan(e.Offset, e.RemovalLength);
      var textChangeRange := TextChangeRange(textSpan, e.InsertionLength());
      var change := TextChange(textSpan, e.Inserted());
      SingleChange(Content(currentText), change);
      currentText := WithChanges(currentText, [change]);
      textChanged := textChanged + [TextChangeEventArgs(oldText, currentText, textChangeRange)];
    }

    /**
     * The document's Replace as this container sees it: the document splices
     * its text, then announces the edit through Changed, which reaches
     * DocumentOnChanged while the container is subscribed. The current text
     * need not match the document (it does not after a failed UpdateText);
     * only an edit that would fall outside it, where WithChanges throws, is
     * excluded.
     */
    method DocumentReplace(offset: int, length: nat, text: string) returns (ok: bool)
      requires subscribed && !updating && 0 <= offset && offset + length <= |document.Text| ==>
                 offset + length <= Length(currentText)
      modifies this, document
      ensures ok == (0 <= offset && offset + length <= |old(document.Text)|)
      ensures document.UpdateDepth == old(document.UpdateDepth)
      ensures ok ==> && document.Text == Splice(old(document.Text), offset, length, text)
                     && document.Replacements == old(document.Replacements) + [DocumentChange(offset, length, Some(text))]
      ensures !ok ==> document.Text == old(document.Text) && document.Replacements == old(document.Replacements)
      ensures updating == old(updating) && subscribed == old(subscribed) && editor == old(editor)
      ensures !(ok && subscribed && !updating) ==> currentText == old(currentText) && textChanged == old(textChanged)
      ensures ok && subscribed && !updating ==>
                && (old(Synced()) ==> Synced())
                && Content(currentText) == Splice(Content(old(currentText)), offset, length, text)
                && Container(currentText) == Container(old(currentText))
                && (Flat(old(currentText)) ==> Flat(currentText))
                && textChanged == old(textChanged)
                     + [TextChangeEventArgs(old(currentText), currentText, TextChangeRange(TextSpan(offset, length), |text|))]
    {
      var e := document.Replace(offset, length, text);
      ok := e.Some?;
      if ok && subscribed {
        DocumentOnChanged(e.value);
      }
    }

    /**
     * The foreach loop of UpdateText: replays the changes into the document,
     * each at its start shifted by documentOffset, the length change of the
     * changes already replayed, and runs the caret rule on the working caret.
     * Stops with ok false at the first replacement outside the document,
     * whose exception leaves the loop.
     */
    method ReplayChanges(changes: seq<TextChange>, caretAtEntry: int) returns (ok: bool, caret: int)
      requires updating
      modifies this, document
      ensures updating && subscribed == old(subscribed) && editor == old(editor)
      ensures currentText == old(currentText) && textChanged == old(textChanged)
      ensures document.UpdateDepth == old(document.UpdateDepth)
      ensures var r := Replay(old(document.Text), changes, 0);
              && ok == r.completed
              && document.Text == r.text
              && document.Replacements == old(document.Replacements) + r.log
      ensures ok ==> caret == CaretAfter(caretAtEntry, changes, 0)
    {
      caret := caretAtEntry;
      var documentOffset := 0;
      ghost var doc0 := document.Text;
      ghost var total := Replay(doc0, changes, 0);
      ghost var caretTotal := CaretAfter(caretAtEntry, changes, 0);
      ghost var applied: seq<DocumentChange> := [];
      ok := true;
      var i := 0;
      assert changes[i..] == changes;
      assert applied + total.log == total.log;
      while i < |changes|
        invariant 0 <= i <= |changes|
        invariant updating && subscribed == old(subscribed) && editor == old(editor)
        invariant currentText == old(currentText) && textChanged == old(textChanged)
        invariant document.UpdateDepth == old(document.UpdateDepth)
        invariant document.Replacements == old(document.Replacements) + applied
        invariant total == Resume(applied, Replay(document.Text, changes[i..], documentOffset))
        invariant caretTotal == CaretAfter(caret, changes[i..], documentOffset)
      {
        var change := changes[i];
        var start := change.Span.Start + documentOffset;
        ghost var before := document.Text;
        var replaced := DocumentReplace(start, change.Span.Length, change.NewText);
        if !replaced {
          ReplayStepThrew(total, changes, i, documentOffset, applied, before);
          ok := false;
          return;
        }
        ghost var offsetBefore, appliedBefore, caretBefore := documentOffset, applied, caret;

        var changeOffset := |change.NewText| - change.Span.Length;
        caret := AdjustCaret(caret, start, change.Span.Length, |change.NewText|);
        applied := applied + [DocumentChange(start, change.Span.Length, Some(change.NewText))];
        documentOffset := documentOffset + changeOffset;
        ReplayStepApplied(total, changes, i, offsetBefore, appliedBefore, before, documentOffset, applied, document.Text);
        CaretStep(caretBefore, changes, i, offsetBefore, caret, documentOffset);
        i := i + 1;
      }
      assert changes[i..] == [];
    }

    /**
     * The finally block of UpdateText: clears the guard, clamps the caret
     * offset to newText, writes it to the editor read on entry (if any) and
     * closes the update group.
     */
    method Finally(ed: Editor?, caretOffset: int, newText: SourceText)
      requires document.UpdateDepth > 0
      modifies this, document, ed
      ensures !updating && subscribed == old(subscribed) && editor == old(editor)
      ensures currentText == old(currentText) && textChanged == old(textChanged)
      ensures document.UpdateDepth == old(document.UpdateDepth) - 1
      ensures document.Text == old(document.Text) && document.Replacements == old(document.Replacements)
      ensures ed != null ==> ed.CaretOffset == WrittenCaret(caretOffset, Length(newText))
    {
      updating := false;
      var clamped := WrittenCaret(caretOffset, Length(newText));
      if ed != null {
        ed.CaretOffset := clamped;
      }
      document.EndUpdate();
    }

    /**
     * UpdateText(newText), given the changes Roslyn's diff returns for
     * newText against the current text. Sets the guard and opens an update
     * group; replays the changes into the document; on success stores
     * newText as it is (not wrapped). On every exit it clears the guard,
     * writes the caret read on entry, clamped to newText, to the editor if
     * there is one, and closes the update group; the caret the replay
     * adjusted is not used. `ok` is false when a replacement fell outside the
     * document and its exception ended the replay.
     */
    method UpdateText(newText: SourceText, changes: seq<TextChange>) returns (ok: bool)
      modifies this, document, editor
      ensures !updating && subscribed == old(subscribed) && editor == old(editor)
      ensures document.UpdateDepth == old(document.UpdateDepth)
      ensures textChanged == old(textChanged)
      ensures var r := Replay(old(document.Text), changes, 0);
              && ok == r.completed
              && document.Text == r.text
              && document.Replacements == old(document.Replacements) + r.log
      ensures currentText == if ok then newText else old(currentText)
      ensures ok && newText.Snapshot? ==> Container(currentText) == None
      ensures old(editor) != null ==> editor.CaretOffset == WrittenCaret(old(editor.CaretOffset), Length(newText))
      ensures changes == [] ==> ok && document.Text == old(document.Text) && document.Replacements == old(document.Replacements)
      ensures Ordered(changes, |old(document.Text)|) ==> ok && document.Text == ApplyAll(old(document.Text), changes)
      ensures (&& old(Synced()) && Ordered(changes, Length(old(currentText)))
               && ApplyAll(Content(old(currentText)), changes) == Content(newText)) ==> ok && Synced()
    {
      updating := true;
      document.BeginUpdate();
      var ed := editor;
      var caret := if ed != null then ed.CaretOffset else 0;
      var caretOffset := caret;
      ghost var doc0 := document.Text;
      ok, caret := ReplayChanges(changes, caret);
      if ok {
        currentText := newText;
      }
      Finally(ed, caretOffset, newText);

      if Ordered(changes, |doc0|) {
        ReplayMatchesApplyAll(doc0, changes);
      }
    }

    /**
     * UpdateText as it was evidently meant to work: the caret the replay
     * adjusted becomes the caret written back (when the replay completes),
     * so a caret keeps its place in the text. Everything else is as in
     * UpdateText.
     */
    method UpdateTextKeepingCaret(newText: SourceText, changes: seq<TextChange>) returns (ok: bool)
      modifies this, document, editor
      ensures !updating && subscribed == old(subscribed) && editor == old(editor)
      ensures document.UpdateDepth == old(document.UpdateDepth)
      ensures textChanged == old(textChanged)
      ensures var r := Replay(old(document.Text), changes, 0);
              && ok == r.completed
              && document.Text == r.text
              && document.Replacements == old(document.Replacements) + r.log
      ensures currentText == if ok then newText else old(currentText)
      ensures old(editor) != null ==>
                editor.CaretOffset == WrittenCaret(if ok then CaretAfter(old(editor.CaretOffset), changes, 0)
                                                   else old(editor.CaretOffset), Length(newText))
      ensures (&& old(editor) != null && old(Synced()) && Ordered(changes, Length(old(currentText)))
               && ApplyAll(Content(old(currentText)), changes) == Content(newText)) ==>
                ok && editor.CaretOffset == TrackedCaret(old(editor.CaretOffset), old(document.Text), changes)
    {
      updating := true;
      document.BeginUpdate();
      var ed := editor;
      var caret := if ed != null then ed.CaretOffset else 0;
      var caretOffset := caret;
      ghost var doc0 := document.Text;
      ok, caret := ReplayChanges(changes, caret);
      if ok {
        caretOffset := caret;
        currentText := newText;
      }
      Finally(ed, caretOffset, newText);

      if Ordered(changes, |doc0|) {
        ReplayMatchesApplyAll(doc0, changes);
      }
    }
  }
}

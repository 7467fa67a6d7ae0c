/**
 * The edit vocabulary the bridge translates between: Roslyn's TextSpan,
 * TextChange and TextChangeRange, and AvalonEdit's document change
 * notification. Also the two meanings of a batch of changes: all of them
 * applied at once in the coordinates of the original text (what Roslyn's
 * WithChanges does, and what its diff promises), and the same changes
 * replayed one by one into a buffer that is edited in place, each start
 * shifted by the length change of the changes before it (what
 * AvalonEditTextContainer.UpdateText does).
 */
module TextEdits {
  import opened Wrappers

  /** The range [Start, Start + Length) of a text; Roslyn refuses negative starts and lengths. */
  datatype TextSpan = TextSpan(Start: nat, Length: nat) {
    function End(): nat { Start + Length }
  }

  /** Replace the text under Span by NewText. */
  datatype TextChange = TextChange(Span: TextSpan, NewText: string) {
    /** How much longer the text becomes through this change. */
    function Delta(): int { |NewText| - Span.Length }
  }

  /** A change described only by its span and the length of what replaced it. */
  datatype TextChangeRange = TextChangeRange(Span: TextSpan, NewLength: nat)

  /**
   * What the editor document reports after one committed edit.
   * InsertedText is None when the document passes a null text.
   */
  datatype DocumentChange = DocumentChange(Offset: nat, RemovalLength: nat, InsertedText: Option<string>) {
    /** The inserted text, a null one read as empty. */
    function Inserted(): string { InsertedText.GetOr("") }
    function InsertionLength(): nat { |Inserted()| }
  }

  /** `s` with [start, start + length) replaced by `ins`. */
  function Splice(s: string, start: nat, length: nat, ins: string): (r: string)
    requires start + length <= |s|
    ensures |r| == |s| - length + |ins|
  {
    s[..start] + ins + s[start + length..]
  }

  /** Net length change of a batch of changes. */
  function NetDelta(cs: seq<TextChange>): int
    decreases |cs|
  {
    if cs == [] then 0 else cs[0].Delta() + NetDelta(cs[1..])
  }

  /**
   * The changes lie inside a text of length n, in ascending order, none
   * overlapping the next, the first starting at or after `from`.
   */
  predicate OrderedFrom(cs: seq<TextChange>, from: nat, n: nat)
    decreases |cs|
  {
    cs == [] ||
    (from <= cs[0].Span.Start && cs[0].Span.End() <= n && OrderedFrom(cs[1..], cs[0].Span.End(), n))
  }

  /** A batch Roslyn accepts for a text of length n (and the shape of what its diff returns). */
  predicate Ordered(cs: seq<TextChange>, n: nat) {
    OrderedFrom(cs, 0, n)
  }

  /** The text from `from` on, with every change applied at once in the coordinates of `s`. */
  function ApplyFrom(s: string, cs: seq<TextChange>, from: nat): (r: string)
    requires from <= |s| && OrderedFrom(cs, from, |s|)
    ensures |r| == |s| - from + NetDelta(cs)
    decreases |cs|
  {
    if cs == [] then s[from..]
    else s[from..cs[0].Span.Start] + cs[0].NewText + ApplyFrom(s, cs[1..], cs[0].Span.End())
  }

  /** `s` with all of the changes applied at once. */
  function ApplyAll(s: string, cs: seq<TextChange>): (r: string)
    requires Ordered(cs, |s|)
    ensures |r| == |s| + NetDelta(cs)
  {
    ApplyFrom(s, cs, 0)
  }

  lemma SingleChange(s: string, c: TextChange)
    requires c.Span.End() <= |s|
    ensures Ordered([c], |s|)
    ensures ApplyAll(s, [c]) == Splice(s, c.Span.Start, c.Span.Length, c.NewText)
  {
    assert [c][1..] == [];
    assert ApplyFrom(s, [c], 0) == s[0..c.Span.Start] + c.NewText + ApplyFrom(s, [], c.Span.End());
    assert s[0..c.Span.Start] == s[..c.Span.Start];
  }

  /**
   * Outcome of replaying a batch into a buffer: the buffer text reached,
   * the edits the buffer performed, and whether every change could be
   * applied (false when a replacement fell outside the buffer, where the
   * buffer throws and the remaining changes are not attempted).
   */
  datatype ReplayResult = ReplayResult(text: string, log: seq<DocumentChange>, completed: bool)

  /**
   * Replays the changes in order into the buffer `doc`, which is edited in
   * place: each change is applied at its original start plus `offset`, the
   * running sum of the length changes of the changes already applied.
   */
  function Replay(doc: string, cs: seq<TextChange>, offset: int): (r: ReplayResult)
    decreases |cs|
  {
    if cs == [] then ReplayResult(doc, [], true)
    else
      var start := cs[0].Span.Start + offset;
      if start < 0 || start + cs[0].Span.Length > |doc| then ReplayResult(doc, [], false)
      else
        var rest := Replay(Splice(doc, start, cs[0].Span.Length, cs[0].NewText), cs[1..], offset + cs[0].Delta());
        ReplayResult(rest.text, [DocumentChange(start, cs[0].Span.Length, Some(cs[0].NewText))] + rest.log, rest.completed)
  }

  /** A splice leaves the text after the replaced range in place, moved by the length change. */
  lemma SpliceKeepsTextAfter(doc: string, start: nat, length: nat, ins: string, k: nat)
    requires start + length <= k <= |doc|
    ensures k - length + |ins| <= |Splice(doc, start, length, ins)|
    ensures Splice(doc, start, length, ins)[k - length + |ins|..] == doc[k..]
  {
    var r := Splice(doc, start, length, ins);
    assert r[start + |ins|..] == doc[start + length..];
    assert r[k - length + |ins|..] == r[start + |ins|..][k - start - length..];
    assert doc[k..] == doc[start + length..][k - start - length..];
  }

  /** Splicing right after a prefix the buffer shares with the result. */
  lemma SpliceAfterPrefix(prefix: string, s: string, from: nat, c: TextChange, start: nat)
    requires from <= c.Span.Start && c.Span.End() <= |s|
    requires start == |prefix| + c.Span.Start - from
    ensures start + c.Span.Length <= |prefix + s[from..]|
    ensures Splice(prefix + s[from..], start, c.Span.Length, c.NewText)
         == (prefix + s[from..c.Span.Start] + c.NewText) + s[c.Span.End()..]
  {
    var doc := prefix + s[from..];
    assert doc[..start] == prefix + s[from..c.Span.Start];
    assert doc[start + c.Span.Length..] == s[c.Span.End()..];
  }

  /** One step of `ApplyFrom`: the prefix before the first change, its new text, then the rest. */
  lemma ApplyFromHead(s: string, cs: seq<TextChange>, from: nat)
    requires cs != [] && from <= |s| && OrderedFrom(cs, from, |s|)
    ensures cs[0].Span.End() <= |s| && OrderedFrom(cs[1..], cs[0].Span.End(), |s|)
    ensures ApplyFrom(s, cs, from)
         == s[from..cs[0].Span.Start] + cs[0].NewText + ApplyFrom(s, cs[1..], cs[0].Span.End())
  {
  }

  /** One in-range step of `Replay`, stated on the values after the step. */
  lemma ReplayHead(doc: string, cs: seq<TextChange>, offset: int, doc': string, offset': int)
    requires cs != []
    requires 0 <= cs[0].Span.Start + offset && cs[0].Span.Start + offset + cs[0].Span.Length <= |doc|
    requires doc' == Splice(doc, cs[0].Span.Start + offset, cs[0].Span.Length, cs[0].NewText)
    requires offset' == offset + cs[0].Delta()
    ensures Replay(doc, cs, offset).text == Replay(doc', cs[1..], offset').text
    ensures Replay(doc, cs, offset).completed == Replay(doc', cs[1..], offset').completed
  {
    ReplayUnfold(doc, cs, offset);
  }

  /** Replaying the first change of a batch after a shared prefix extends that prefix. */
  lemma ReplayHeadAfterPrefix(s: string, cs: seq<TextChange>, from: nat, prefix: string, offset: int,
                              prefix': string, offset': int)
    requires cs != [] && from <= |s| && OrderedFrom(cs, from, |s|)
    requires |prefix| == from + offset
    requires prefix' == prefix + s[from..cs[0].Span.Start] + cs[0].NewText
    requires offset' == offset + cs[0].Delta()
    ensures cs[0].Span.End() <= |s|
    ensures Replay(prefix + s[from..], cs, offset).text == Replay(prefix' + s[cs[0].Span.End()..], cs[1..], offset').text
    ensures Replay(prefix + s[from..], cs, offset).completed == Replay(prefix' + s[cs[0].Span.End()..], cs[1..], offset').completed
  {
    SpliceAfterPrefix(prefix, s, from, cs[0], cs[0].Span.Start + offset);
    ReplayHead(prefix + s[from..], cs, offset, prefix' + s[cs[0].Span.End()..], offset');
  }

  /** Applying a batch after a prefix, seen from just past its first change. */
  lemma ApplyFromAfterPrefix(s: string, cs: seq<TextChange>, from: nat, prefix: string, prefix': string)
    requires cs != [] && from <= |s| && OrderedFrom(cs, from, |s|)
    requires prefix' == prefix + s[from..cs[0].Span.Start] + cs[0].NewText
    ensures cs[0].Span.End() <= |s| && OrderedFrom(cs[1..], cs[0].Span.End(), |s|)
    ensures prefix + ApplyFrom(s, cs, from) == prefix' + ApplyFrom(s, cs[1..], cs[0].Span.End())
  {
    ApplyFromHead(s, cs, from);
    var rest := ApplyFrom(s, cs[1..], cs[0].Span.End());
    assert prefix + (s[from..cs[0].Span.Start] + cs[0].NewText + rest) == prefix' + rest;
  }

  lemma {:induction false} ReplayAgainstApplyFrom(s: string, cs: seq<TextChange>, from: nat, prefix: string, offset: int)
    requires from <= |s| && OrderedFrom(cs, from, |s|)
    requires |prefix| == from + offset
    ensures Replay(prefix + s[from..], cs, offset).completed
    ensures Replay(prefix + s[from..], cs, offset).text == prefix + ApplyFrom(s, cs, from)
    decreases |cs|
  {
    if cs != [] {
      var c := cs[0];
      ApplyFromHead(s, cs, from);
      var prefix' := prefix + s[from..c.Span.Start] + c.NewText;
      var offset' := offset + c.Delta();
      ReplayAgainstApplyFrom(s, cs[1..], c.Span.End(), prefix', offset');
      ReplayHeadAfterPrefix(s, cs, from, prefix, offset, prefix', offset');
      ApplyFromAfterPrefix(s, cs, from, prefix, prefix');
    }
  }

  /**
   * Replaying an ordered batch in place, with the running offset
   * correction, never leaves the buffer and ends with exactly the text that
   * applying the whole batch at once produces.
   */
  lemma ReplayMatchesApplyAll(s: string, cs: seq<TextChange>)
    requires Ordered(cs, |s|)
    ensures Replay(s, cs, 0).completed
    ensures Replay(s, cs, 0).text == ApplyAll(s, cs)
  {
    assert [] + s[0..] == s;
    ReplayAgainstApplyFrom(s, cs, 0, [], 0);
  }

  /**
   * The j-th edit the buffer performs is the j-th change, moved by the
   * length change of all the changes before it.
   */
  lemma {:induction false} ReplayLogOffsets(doc: string, cs: seq<TextChange>, offset: int, j: nat)
    requires j < |Replay(doc, cs, offset).log|
    ensures j < |cs|
    ensures Replay(doc, cs, offset).log[j].Offset == cs[j].Span.Start + offset + NetDelta(cs[..j])
    ensures Replay(doc, cs, offset).log[j].RemovalLength == cs[j].Span.Length
    ensures Replay(doc, cs, offset).log[j].InsertedText == Some(cs[j].NewText)
    decreases |cs|
  {
    var c := cs[0];
    var start := c.Span.Start + offset;
    var doc' := Splice(doc, start, c.Span.Length, c.NewText);
    if j == 0 {
      assert cs[..0] == [];
    } else {
      ReplayLogOffsets(doc', cs[1..], offset + c.Delta(), j - 1);
      assert cs[..j][1..] == cs[1..][..j - 1];
    }
  }

  /** Replay of a non-empty batch, one change at a time. */
  lemma ReplayUnfold(doc: string, cs: seq<TextChange>, offset: int)
    requires cs != []
    ensures var start := cs[0].Span.Start + offset;
            0 <= start && start + cs[0].Span.Length <= |doc| ==>
              var rest := Replay(Splice(doc, start, cs[0].Span.Length, cs[0].NewText), cs[1..], offset + cs[0].Delta());
              Replay(doc, cs, offset) == ReplayResult(rest.text, [DocumentChange(start, cs[0].Span.Length, Some(cs[0].NewText))] + rest.log, rest.completed)
    ensures var start := cs[0].Span.Start + offset;
            !(0 <= start && start + cs[0].Span.Length <= |doc|) ==>
              Replay(doc, cs, offset) == ReplayResult(doc, [], false)
  {
  }

  /** `r` behind the edits already performed. */
  function Resume(applied: seq<DocumentChange>, r: ReplayResult): ReplayResult {
    ReplayResult(r.text, applied + r.log, r.completed)
  }

  /**
   * One step of the replay loop that succeeds: if the whole replay is the
   * edits performed so far followed by the replay of the changes from i on,
   * it still is once change i has been applied at its shifted start.
   */
  lemma ReplayStepApplied(total: ReplayResult, cs: seq<TextChange>, i: nat, offset: int, applied: seq<DocumentChange>, doc: string,
                           offset': int, applied': seq<DocumentChange>, doc': string)
    requires i < |cs|
    requires total == Resume(applied, Replay(doc, cs[i..], offset))
    requires 0 <= cs[i].Span.Start + offset && cs[i].Span.Start + offset + cs[i].Span.Length <= |doc|
    requires doc' == Splice(doc, cs[i].Span.Start + offset, cs[i].Span.Length, cs[i].NewText)
    requires applied' == applied + [DocumentChange(cs[i].Span.Start + offset, cs[i].Span.Length, Some(cs[i].NewText))]
    requires offset' == offset + |cs[i].NewText| - cs[i].Span.Length
    ensures total == Resume(applied', Replay(doc', cs[i + 1..], offset'))
  {
    var c := cs[i];
    var start := c.Span.Start + offset;
    assert cs[i..][0] == c;
    assert cs[i..][1..] == cs[i + 1..];
    ReplayUnfold(doc, cs[i..], offset);
    var e := DocumentChange(start, c.Span.Length, Some(c.NewText));
    var rest' := Replay(doc', cs[i + 1..], offset');
    assert applied + ([e] + rest'.log) == applied' + rest'.log;
  }

  /** One step of the replay loop whose replacement falls outside the buffer: the replay ends there. */
  lemma ReplayStepThrew(total: ReplayResult, cs: seq<TextChange>, i: nat, offset: int, applied: seq<DocumentChange>, doc: string)
    requires i < |cs|
    requires total == Resume(applied, Replay(doc, cs[i..], offset))
    requires !(0 <= cs[i].Span.Start + offset && cs[i].Span.Start + offset + cs[i].Span.Length <= |doc|)
    ensures total == ReplayResult(doc, applied, false)
  {
    assert cs[i..][0] == cs[i];
    ReplayUnfold(doc, cs[i..], offset);
    assert applied + [] == applied;
  }

}

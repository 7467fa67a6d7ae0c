/**
 * Immutable text snapshots as Roslyn sees them, and the snapshot wrapper
 * AvalonEditSourceText, which decorates a snapshot with the container that
 * owns it and delegates every read to the snapshot it wraps.
 */
module SourceTexts {
  import opened Wrappers
  import opened TextEdits

  /** Identity of a SourceTextContainer: a non-owning back-reference. */
  type ContainerId = nat

  /**
   * Snapshot is a plain Roslyn text. Wrapper is an AvalonEditSourceText:
   * its owning container (null allowed) and the text it wraps.
   */
  datatype SourceText =
    | Snapshot(chars: string)
    | Wrapper(owner: Option<ContainerId>, inner: SourceText)

  /** The characters of a text (its ToString()); a wrapper has those of the text it wraps. */
  function Content(t: SourceText): string {
    match t
    case Snapshot(chars) => chars
    case Wrapper(_, inner) => Content(inner)
  }

  /** A wrapper whose inner text is a plain snapshot (the only kind this bridge builds). */
  predicate Flat(t: SourceText) {
    t.Wrapper? ==> t.inner.Snapshot?
  }

  /** The Length property. */
  function Length(t: SourceText): (n: nat)
    ensures n == |Content(t)|
  {
    match t
    case Snapshot(chars) => |chars|
    case Wrapper(_, inner) => Length(inner)
  }

  /** The indexer this[position]. */
  function CharAt(t: SourceText, position: nat): (c: char)
    requires position < Length(t)
    ensures c == Content(t)[position]
  {
    match t
    case Snapshot(chars) => chars[position]
    case Wrapper(_, inner) => CharAt(inner, position)
  }

  /** ToString(span). */
  function SpanText(t: SourceText, span: TextSpan): (r: string)
    requires span.End() <= Length(t)
    ensures r == Content(t)[span.Start..span.End()]
  {
    match t
    case Snapshot(chars) => chars[span.Start..span.End()]
    case Wrapper(_, inner) => SpanText(inner, span)
  }

  /**
   * The Container property. A wrapper reports its owner, or when it has
   * none the container of the text it wraps; a plain snapshot reports
   * Roslyn's own container, which belongs to no editor bridge (None here).
   */
  function Container(t: SourceText): Option<ContainerId> {
    match t
    case Snapshot(_) => None
    case Wrapper(owner, inner) => if owner.Some? then owner else Container(inner)
  }

  /** GetSubText(span): a wrapper yields a wrapper with the same owner around the inner sub-text. */
  function GetSubText(t: SourceText, span: TextSpan): (r: SourceText)
    requires span.End() <= Length(t)
    ensures Content(r) == Content(t)[span.Start..span.End()]
    ensures t.Wrapper? ==> r.Wrapper? && r.owner == t.owner
    ensures Container(r) == Container(t)
    ensures Flat(t) ==> Flat(r)
  {
    match t
    case Snapshot(chars) => Snapshot(chars[span.Start..span.End()])
    case Wrapper(owner, inner) => Wrapper(owner, GetSubText(inner, span))
  }

  /** WithChanges(changes): a wrapper yields a wrapper with the same owner around the changed inner text. */
  function WithChanges(t: SourceText, cs: seq<TextChange>): (r: SourceText)
    requires Ordered(cs, Length(t))
    ensures Content(r) == ApplyAll(Content(t), cs)
    ensures t.Wrapper? ==> r.Wrapper? && r.owner == t.owner
    ensures Container(r) == Container(t)
    ensures Flat(t) ==> Flat(r)
  {
    match t
    case Snapshot(chars) => Snapshot(ApplyAll(chars, cs))
    case Wrapper(owner, inner) => Wrapper(owner, WithChanges(inner, cs))
  }

  /** The text a wrapper wraps, or the argument itself when it is not a wrapper: one level only. */
  function GetInnerSourceText(t: SourceText): (r: SourceText)
    ensures Content(r) == Content(t)
    ensures t.Wrapper? ==> r == t.inner
    ensures !t.Wrapper? ==> r == t
  {
    match t
    case Wrapper(_, inner) => inner
    case Snapshot(_) => t
  }

  /** ContentEquals(other): a wrapper compares its inner text with the unwrapped argument. */
  function ContentEquals(t: SourceText, other: SourceText): (r: bool)
    ensures r <==> Content(t) == Content(other)
  {
    match t
    case Snapshot(chars) => chars == Content(other)
    case Wrapper(_, inner) => ContentEquals(inner, GetInnerSourceText(other))
  }

  /** A text-producing call on a text: GetSubText(span) or WithChanges(changes). */
  datatype Derivation = SubText(span: TextSpan) | Changes(changes: seq<TextChange>)

  /**
   * The text reached from `t` by the derivations in turn; None once one of
   * them is out of range for the text it is applied to (Roslyn throws).
   */
  function Derive(t: SourceText, ds: seq<Derivation>): Option<SourceText>
    decreases |ds|
  {
    if ds == [] then Some(t)
    else match ds[0]
      case SubText(span) =>
        if span.End() <= Length(t) then Derive(GetSubText(t, span), ds[1..]) else None
      case Changes(cs) =>
        if Ordered(cs, Length(t)) then Derive(WithChanges(t, cs), ds[1..]) else None
  }

  /**
   * Every text derived from a wrapper through GetSubText and WithChanges is
   * again a wrapper with the same owner around a plain snapshot, and so
   * reports the same Container: the owning container, when the wrapper
   * has one.
   */
  lemma {:induction false} DerivedTextsKeepOwner(t: SourceText, ds: seq<Derivation>)
    requires t.Wrapper? && Flat(t)
    ensures Derive(t, ds).Some? ==>
              && Derive(t, ds).value.Wrapper? && Derive(t, ds).value.owner == t.owner
              && Flat(Derive(t, ds).value)
              && Container(Derive(t, ds).value) == Container(t)
              && (t.owner.Some? ==> Container(Derive(t, ds).value) == t.owner)
    decreases |ds|
  {
    if ds != [] {
      match ds[0]
      case SubText(span) =>
        if span.End() <= Length(t) {
          DerivedTextsKeepOwner(GetSubText(t, span), ds[1..]);
        }
      case Changes(cs) =>
        if Ordered(cs, Length(t)) {
          DerivedTextsKeepOwner(WithChanges(t, cs), ds[1..]);
        }
    }
  }

  /**
   * Unwrapping removes exactly one level of wrapping. The container never
   * builds a doubly wrapped text (every wrapper it makes is around a plain
   * snapshot, see DerivedTextsKeepOwner), but a caller may pass one.
   */
  lemma UnwrapOneLevel(o1: Option<ContainerId>, o2: Option<ContainerId>, t: SourceText)
    ensures GetInnerSourceText(Wrapper(o1, Wrapper(o2, t))) == Wrapper(o2, t)
    ensures GetInnerSourceText(GetInnerSourceText(Wrapper(o1, Wrapper(o2, t)))) == t
  {
  }
}

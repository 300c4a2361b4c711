/**
 * The document-diff review hook (src/hooks/useDocumentDiff.ts): the parts of a
 * word diff become a list of pending changes, and a live copy of that list is
 * reviewed change by change or in bulk, reset, and tallied.
 *
 * The word-diff library itself is not part of this model: it is a parameter of
 * type WordDiff, and all that is assumed about it is stated in DocumentedDiff.
 */
module DocumentDiff {
  import opened Options
  import opened Changes

  /** One element of the library's result; its text may be absent. */
  datatype DiffPart = DiffPart(value: Option<string>, added: bool, removed: bool)

  /** The library's result: normally an array of parts, but the hook guards against anything else. */
  datatype DiffResult = PartList(parts: seq<DiffPart>) | NotAList

  /** The word-diff library: any function from an old and a new text to a result. */
  type WordDiff = (string, string) -> DiffResult

  /** An absent input text counts as the empty text. */
  function OrEmpty(text: Option<string>): string
  {
    text.GetOr("")
  }

  function PartText(p: DiffPart): string
  {
    p.value.GetOr("")
  }

  /** The change type of a part: an added flag wins over a removed flag. */
  function KindOf(p: DiffPart): ChangeType
  {
    if p.added then Added else if p.removed then Removed else Unchanged
  }

  /** One change per part, in order: change i has id i, the part's type and text, and status pending. */
  function ToChanges(parts: seq<DiffPart>): (cs: seq<Change>)
    ensures |cs| == |parts| && Pristine(cs)
    ensures forall i :: 0 <= i < |cs| ==> cs[i].content == parts[i].value.GetOr("")
    ensures forall i :: 0 <= i < |cs| ==>
      (cs[i].kind == Added <==> parts[i].added) &&
      (cs[i].kind == Removed <==> parts[i].removed && !parts[i].added) &&
      (cs[i].kind == Unchanged <==> !parts[i].removed && !parts[i].added)
  {
    seq(|parts|, i requires 0 <= i < |parts| => Change(i, KindOf(parts[i]), PartText(parts[i]), Pending))
  }

  /** The memoised list: diff the two texts (absent ones as ""), and keep nothing if the result is not a list. */
  function ComputeChanges(diff: WordDiff, oldText: Option<string>, newText: Option<string>): (cs: seq<Change>)
    ensures Pristine(cs)
    ensures diff(OrEmpty(oldText), OrEmpty(newText)).NotAList? ==> cs == []
    ensures diff(OrEmpty(oldText), OrEmpty(newText)).PartList? ==>
      |cs| == |diff(OrEmpty(oldText), OrEmpty(newText)).parts|
    ensures diff(OrEmpty(oldText), OrEmpty(newText)).PartList? ==>
      cs == ToChanges(diff(OrEmpty(oldText), OrEmpty(newText)).parts)
    ensures diff(OrEmpty(oldText), OrEmpty(newText)).PartList? ==>
      forall i :: 0 <= i < |cs| ==>
        cs[i].id == i &&
        cs[i].kind == KindOf(diff(OrEmpty(oldText), OrEmpty(newText)).parts[i]) &&
        cs[i].content == PartText(diff(OrEmpty(oldText), OrEmpty(newText)).parts[i])
  {
    match diff(OrEmpty(oldText), OrEmpty(newText))
    case PartList(parts) => ToChanges(parts)
    case NotAList => []
  }

  /** An absent text and the empty text give the same list. */
  lemma AbsentTextIsEmpty(diff: WordDiff, oldText: Option<string>, newText: Option<string>)
    ensures ComputeChanges(diff, None, newText) == ComputeChanges(diff, Some(""), newText)
    ensures ComputeChanges(diff, oldText, None) == ComputeChanges(diff, oldText, Some(""))
  {
  }

  /** The text of the parts that are not added, in order. */
  function OldSide(parts: seq<DiffPart>): string
  {
    if parts == [] then "" else (if !parts[0].added then PartText(parts[0]) else "") + OldSide(parts[1..])
  }

  /** The text of the parts that are not removed, in order. */
  function NewSide(parts: seq<DiffPart>): string
  {
    if parts == [] then "" else (if !parts[0].removed then PartText(parts[0]) else "") + NewSide(parts[1..])
  }

  /** What the diff library documents about its result for `oldText` and `newText`:
      unadded parts spell the old text, unremoved parts the new text, and no part is both. */
  ghost predicate DocumentedDiff(oldText: string, newText: string, parts: seq<DiffPart>)
  {
    OldSide(parts) == oldText && NewSide(parts) == newText &&
    forall i :: 0 <= i < |parts| ==> !(parts[i].added && parts[i].removed)
  }

  /** A list that agrees with the parts on types and texts spells the same two sides. */
  lemma {:induction false} SpellsLikeParts(cs: seq<Change>, parts: seq<DiffPart>)
    requires |cs| == |parts|
    requires forall i :: 0 <= i < |parts| ==> !(parts[i].added && parts[i].removed)
    requires forall i :: 0 <= i < |cs| ==> cs[i].kind == KindOf(parts[i]) && cs[i].content == PartText(parts[i])
    ensures OldText(cs) == OldSide(parts) && NewText(cs) == NewSide(parts)
  {
    if cs != [] {
      SpellsLikeParts(cs[1..], parts[1..]);
    }
  }

  /** Round trip: if the library keeps its documented contract, the computed changes spell the old
      text from the non-added entries and the new text from the non-removed entries. */
  lemma ChangesSpellBothTexts(diff: WordDiff, oldText: Option<string>, newText: Option<string>)
    requires diff(OrEmpty(oldText), OrEmpty(newText)).PartList?
    requires DocumentedDiff(OrEmpty(oldText), OrEmpty(newText), diff(OrEmpty(oldText), OrEmpty(newText)).parts)
    ensures OldText(ComputeChanges(diff, oldText, newText)) == OrEmpty(oldText)
    ensures NewText(ComputeChanges(diff, oldText, newText)) == OrEmpty(newText)
  {
    var parts := diff(OrEmpty(oldText), OrEmpty(newText)).parts;
    SpellsLikeParts(ToChanges(parts), parts);
  }

  /** The hook's state: the list computed from the current inputs and the live list under review. */
  class DiffReview {
    var computed: seq<Change>
    var changes: seq<Change>

    /** The computed list is pristine, and the live list differs from it in statuses only. */
    ghost predicate Valid()
      reads this
    {
      Pristine(computed) && SameShape(computed, changes)
    }

    /** The hook's first render: the live list starts as the computed one. */
    constructor (diff: WordDiff, oldText: Option<string>, newText: Option<string>)
      ensures Valid()
      ensures computed == ComputeChanges(diff, oldText, newText) && changes == computed
    {
      computed := ComputeChanges(diff, oldText, newText);
      changes := ComputeChanges(diff, oldText, newText);
    }

    /** New input texts: the list is recomputed and overwrites the live list, discarding every review. */
    method SetInputs(diff: WordDiff, oldText: Option<string>, newText: Option<string>)
      modifies this
      ensures Valid()
      ensures computed == ComputeChanges(diff, oldText, newText) && changes == computed
    {
      computed := ComputeChanges(diff, oldText, newText);
      changes := computed;
    }

    /** Gives status `status` to the change with id `id`; an unknown id changes nothing. */
    method ApplyChange(id: int, status: Status)
      requires Valid()
      modifies this
      ensures Valid() && computed == old(computed)
      ensures changes == SetStatusOf(old(changes), id, status)
      ensures 0 <= id < |changes| ==> changes == old(changes)[id := old(changes)[id].(status := status)]
      ensures !(0 <= id < |changes|) ==> changes == old(changes)
    {
      SetStatusOfDense(changes, id, status);
      changes := SetStatusOf(changes, id, status);
    }

    /** Marks every change accepted, unchanged and edited ones included. */
    method ApplyAll()
      requires Valid()
      modifies this
      ensures Valid() && computed == old(computed)
      ensures changes == SetAllStatus(old(changes), Accepted)
      ensures CurrentStats() == Stats(|changes|, 0, 0, 0)
    {
      changes := SetAllStatus(changes, Accepted);
      TallyAfterSetAll(old(changes), Accepted);
    }

    /** Marks every change rejected, unchanged and edited ones included. */
    method RejectAll()
      requires Valid()
      modifies this
      ensures Valid() && computed == old(computed)
      ensures changes == SetAllStatus(old(changes), Rejected)
      ensures CurrentStats() == Stats(0, |changes|, 0, 0)
    {
      changes := SetAllStatus(changes, Rejected);
      TallyAfterSetAll(old(changes), Rejected);
    }

    /** Restores the computed list, which is the live list with every status back to pending. */
    method ResetAll()
      requires Valid()
      modifies this
      ensures Valid() && computed == old(computed)
      ensures changes == computed
      ensures changes == SetAllStatus(old(changes), Pending)
    {
      PendingRestoresPristine(computed, changes);
      changes := computed;
    }

    /** The tally of the live list: its four counters add up to the number of changes. */
    function CurrentStats(): (t: Stats)
      reads this
      ensures t.accepted + t.rejected + t.pending + t.edited == |changes|
      ensures t.accepted == CountStatus(changes, Accepted) && t.rejected == CountStatus(changes, Rejected)
      ensures t.pending == CountStatus(changes, Pending) && t.edited == CountStatus(changes, Edited)
    {
      Tally(changes)
    }
  }
}

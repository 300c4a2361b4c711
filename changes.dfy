/**
 * The review record attached to one part of a word diff (src/types/change.ts),
 * and the per-element rewrites and the tally that both review stores
 * (DocumentDiff.DiffReview and ChangeStore.ChangeList) apply to a list of them.
 */
module Changes {

  /** The `type` of a change: an added span, a removed span, or `null` for an unchanged span. */
  datatype ChangeType = Added | Removed | Unchanged

  /** The reviewer's decision about a change. */
  datatype Status = Pending | Accepted | Rejected | Edited

  datatype Change = Change(id: int, kind: ChangeType, content: string, status: Status)

  /** The four counters the document-diff hook derives from its list. */
  datatype Stats = Stats(accepted: nat, rejected: nat, pending: nat, edited: nat)

  /** `a` and `b` have the same length and, entry by entry, the same id, type and content:
      at most the statuses differ. */
  ghost predicate SameShape(a: seq<Change>, b: seq<Change>)
  {
    |a| == |b| &&
    forall i :: 0 <= i < |a| ==> a[i].id == b[i].id && a[i].kind == b[i].kind && a[i].content == b[i].content
  }

  /** A freshly computed list: ids are the positions 0..n-1 and nothing has been reviewed yet. */
  ghost predicate Pristine(cs: seq<Change>)
  {
    forall i :: 0 <= i < |cs| ==> cs[i].id == i && cs[i].status == Pending
  }

  /** The single-change update: every entry whose id equals `id` gets status `s`. */
  function SetStatusOf(cs: seq<Change>, id: int, s: Status): (r: seq<Change>)
    ensures SameShape(cs, r)
    ensures forall i :: 0 <= i < |r| ==> r[i].status == (if cs[i].id == id then s else cs[i].status)
  {
    if cs == [] then []
    else [if cs[0].id == id then cs[0].(status := s) else cs[0]] + SetStatusOf(cs[1..], id, s)
  }

  /** The bulk update: every entry, whatever its type or status, gets status `s`. */
  function SetAllStatus(cs: seq<Change>, s: Status): (r: seq<Change>)
    ensures SameShape(cs, r)
    ensures forall i :: 0 <= i < |r| ==> r[i].status == s
  {
    if cs == [] then [] else [cs[0].(status := s)] + SetAllStatus(cs[1..], s)
  }

  /** The number of entries with status `s`. */
  function CountStatus(cs: seq<Change>, s: Status): (n: nat)
    ensures n <= |cs|
  {
    if cs == [] then 0 else (if cs[0].status == s then 1 else 0) + CountStatus(cs[1..], s)
  }

  /** The four counters over a list; unchanged entries are counted like any other. */
  function Tally(cs: seq<Change>): (t: Stats)
    ensures t.accepted + t.rejected + t.pending + t.edited == |cs|
  {
    TallyPartitions(cs);
    Stats(CountStatus(cs, Accepted), CountStatus(cs, Rejected), CountStatus(cs, Pending), CountStatus(cs, Edited))
  }

  /** Every entry falls into exactly one of the four buckets. */
  lemma {:induction false} TallyPartitions(cs: seq<Change>)
    ensures CountStatus(cs, Accepted) + CountStatus(cs, Rejected) + CountStatus(cs, Pending) + CountStatus(cs, Edited) == |cs|
  {
    if cs != [] {
      TallyPartitions(cs[1..]);
    }
  }

  /** A bucket is empty exactly when no entry has that status. */
  lemma {:induction false} CountZeroIff(cs: seq<Change>, s: Status)
    ensures CountStatus(cs, s) == 0 <==> forall i :: 0 <= i < |cs| ==> cs[i].status != s
  {
    if cs != [] {
      CountZeroIff(cs[1..], s);
      assert forall i :: 1 <= i < |cs| ==> cs[i] == cs[1..][i - 1];
    }
  }

  /** After a bulk update to `s`, bucket `s` holds every entry and the other buckets are empty. */
  lemma {:induction false} CountAfterSetAll(cs: seq<Change>, s: Status, t: Status)
    ensures CountStatus(SetAllStatus(cs, s), t) == if s == t then |cs| else 0
  {
    if cs != [] {
      CountAfterSetAll(cs[1..], s, t);
    }
  }

  /** The tally after a bulk update. */
  lemma TallyAfterSetAll(cs: seq<Change>, s: Status)
    ensures var t := Tally(SetAllStatus(cs, s));
      t.accepted == (if s == Accepted then |cs| else 0) &&
      t.rejected == (if s == Rejected then |cs| else 0) &&
      t.pending == (if s == Pending then |cs| else 0) &&
      t.edited == (if s == Edited then |cs| else 0)
  {
    CountAfterSetAll(cs, s, Accepted);
    CountAfterSetAll(cs, s, Rejected);
    CountAfterSetAll(cs, s, Pending);
    CountAfterSetAll(cs, s, Edited);
  }

  /** An id that no entry carries leaves the list as it was. */
  lemma SetStatusOfUnknownId(cs: seq<Change>, id: int, s: Status)
    requires forall i :: 0 <= i < |cs| ==> cs[i].id != id
    ensures SetStatusOf(cs, id, s) == cs
  {
    var r := SetStatusOf(cs, id, s);
    assert forall i :: 0 <= i < |cs| ==> r[i] == cs[i];
  }

  /** Applying the same single-change update twice is the same as applying it once. */
  lemma SetStatusOfIdempotent(cs: seq<Change>, id: int, s: Status)
    ensures SetStatusOf(SetStatusOf(cs, id, s), id, s) == SetStatusOf(cs, id, s)
  {
    var once := SetStatusOf(cs, id, s);
    var twice := SetStatusOf(once, id, s);
    assert forall i :: 0 <= i < |cs| ==> twice[i] == once[i];
  }

  /** On a list with dense ids, the single-change update touches exactly the entry at position `id`,
      and none when `id` is out of range. */
  lemma SetStatusOfDense(cs: seq<Change>, id: int, s: Status)
    requires forall i :: 0 <= i < |cs| ==> cs[i].id == i
    ensures 0 <= id < |cs| ==> SetStatusOf(cs, id, s) == cs[id := cs[id].(status := s)]
    ensures !(0 <= id < |cs|) ==> SetStatusOf(cs, id, s) == cs
  {
    var r := SetStatusOf(cs, id, s);
    if 0 <= id < |cs| {
      assert forall i :: 0 <= i < |cs| ==> r[i] == cs[id := cs[id].(status := s)][i];
    } else {
      SetStatusOfUnknownId(cs, id, s);
    }
  }

  /** A bulk update is idempotent. */
  lemma SetAllStatusIdempotent(cs: seq<Change>, s: Status)
    ensures SetAllStatus(SetAllStatus(cs, s), s) == SetAllStatus(cs, s)
  {
    var once := SetAllStatus(cs, s);
    var twice := SetAllStatus(once, s);
    assert forall i :: 0 <= i < |cs| ==> twice[i] == once[i];
  }

  /** Setting every status to pending turns any list with the shape of a pristine list back into
      that pristine list: on freshly computed changes, the two stores' resets agree. */
  lemma PendingRestoresPristine(pristine: seq<Change>, cs: seq<Change>)
    requires Pristine(pristine) && SameShape(pristine, cs)
    ensures SetAllStatus(cs, Pending) == pristine
  {
    var r := SetAllStatus(cs, Pending);
    assert forall i :: 0 <= i < |cs| ==> r[i] == pristine[i];
  }

  /** The old text as the list spells it: the contents of all entries that are not additions, in order. */
  function OldText(cs: seq<Change>): string
  {
    if cs == [] then "" else (if cs[0].kind != Added then cs[0].content else "") + OldText(cs[1..])
  }

  /** The new text as the list spells it: the contents of all entries that are not removals, in order. */
  function NewText(cs: seq<Change>): string
  {
    if cs == [] then "" else (if cs[0].kind != Removed then cs[0].content else "") + NewText(cs[1..])
  }
}

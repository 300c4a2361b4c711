/**
 * The plain change-list hook (src/hooks/useChanges.ts): a list of changes given
 * by the caller, updated one change at a time or in bulk. Unlike
 * DocumentDiff.DiffReview, its reset keeps the list and sets every status to
 * pending instead of restoring a computed list.
 */
module ChangeStore {
  import opened Changes

  class ChangeList {
    var changes: seq<Change>

    /** The list starts as the caller's `initial` list. */
    constructor (initial: seq<Change>)
      ensures changes == initial
    {
      changes := initial;
    }

    /** Gives status `status` to every change with id `id`; an unknown id changes nothing. */
    method UpdateChange(id: int, status: Status)
      modifies this
      ensures changes == SetStatusOf(old(changes), id, status)
      ensures SameShape(old(changes), changes)
      ensures (forall i :: 0 <= i < |old(changes)| ==> old(changes)[i].id != id) ==> changes == old(changes)
    {
      if forall i :: 0 <= i < |changes| ==> changes[i].id != id {
        SetStatusOfUnknownId(changes, id, status);
      }
      changes := SetStatusOf(changes, id, status);
    }

    /** Marks every change accepted. */
    method AcceptAll()
      modifies this
      ensures changes == SetAllStatus(old(changes), Accepted)
      ensures SameShape(old(changes), changes)
    {
      changes := SetAllStatus(changes, Accepted);
    }

    /** Marks every change rejected. */
    method RejectAll()
      modifies this
      ensures changes == SetAllStatus(old(changes), Rejected)
      ensures SameShape(old(changes), changes)
    {
      changes := SetAllStatus(changes, Rejected);
    }

    /** Sets every status back to pending, keeping ids, types and contents. */
    method ResetAll()
      modifies this
      ensures changes == SetAllStatus(old(changes), Pending)
      ensures SameShape(old(changes), changes)
    {
      changes := SetAllStatus(changes, Pending);
    }
  }

  /** This reset is not "restore the initial list": an initial list with a reviewed entry is not
      given back. */
  lemma ResetDiffersFromRestore()
    ensures var initial := [Change(0, Added, "x", Accepted)];
      SetAllStatus(initial, Pending) != initial
  {
    var initial := [Change(0, Added, "x", Accepted)];
    assert SetAllStatus(initial, Pending)[0].status == Pending;
  }
}

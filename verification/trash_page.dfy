/** The trash page: loading the trashed memos, the search box over them, and
    the restore and permanent-delete handlers with the local list they
    leave. Each handler is split at its request, as on the inbox page; the
    server's answer is a parameter. */
module TrashPage {
  import opened Wrappers
  import opened Primitives
  import opened Text
  import opened Seqs
  import opened MemoList

  /** Whether a memo's content, lower-cased, contains `needle`. */
  function Matches(needle: string): Memo -> bool
  {
    (m: Memo) => Contains(Lower(m.content), needle)
  }

  /** `filteredMemos`: a query blank after trimming shows every memo;
      otherwise the memos whose lower-cased content contains the
      lower-cased query, spaces and all, in list order. */
  function FilteredMemos(memos: seq<Memo>, query: string): (r: seq<Memo>)
    ensures IsBlank(JavaScript, query) ==> r == memos
    ensures !IsBlank(JavaScript, query) ==>
              forall m :: m in r <==> m in memos && Contains(Lower(m.content), Lower(query))
    ensures forall m :: multiset(r)[m] <= multiset(memos)[m]
    ensures IsSubsequence(r, memos)
  {
    if IsBlank(JavaScript, query) then
      assert IsSubsequence(memos, memos) by { SubsequenceOfSelf(memos); }
      memos
    else Filter(memos, Matches(Lower(query)))
  }

  const LoadFailedMessage: string := "Failed to load trash"
  const RestoreFailedMessage: string := "Failed to restore memo"
  const DeleteFailedMessage: string := "Failed to delete memo"

  /** The page's state: the loaded memos, the error line, the ids with a
      restore or a permanent delete in flight, and the search box. */
  datatype Trash = Trash(memos: seq<Memo>, error: Option<string>, restoringId: Option<Id>,
                         deletingId: Option<Id>, query: string)

  /** What the page shows: the search applied to the loaded memos. */
  function Shown(v: Trash): seq<Memo>
  {
    FilteredMemos(v.memos, v.query)
  }

  /** `loadMemos` with the answer to `getTrash`: the error is cleared before
      the request; a list replaces the memos, a failure keeps them and shows
      "Failed to load trash". */
  function Load(v: Trash, answer: Option<seq<Memo>>): (r: Trash)
    ensures answer.Some? ==> r.memos == answer.value && r.error.None?
    ensures answer.None? ==> r.memos == v.memos && r.error == Some(LoadFailedMessage)
    ensures r.restoringId == v.restoringId && r.deletingId == v.deletingId && r.query == v.query
  {
    match answer
    case Some(ms) => v.(memos := ms, error := None)
    case None => v.(error := Some(LoadFailedMessage))
  }

  /** `handleRestore` up to the request: the id is marked as restoring and
      its restore is sent. There is no confirmation. */
  function StartRestore(v: Trash, id: Id): (r: (Trash, Id))
    ensures r.1 == id && r.0.restoringId == Some(id)
    ensures r.0.memos == v.memos && r.0.error == v.error && r.0.deletingId == v.deletingId
            && r.0.query == v.query
  {
    (v.(restoringId := Some(id)), id)
  }

  /** The answer to a restore request: success drops the memo from the
      list; failure keeps it and shows "Failed to restore memo". The
      restoring mark is cleared either way. */
  function FinishRestore(v: Trash, id: Id, succeeded: bool): (r: Trash)
    ensures r.restoringId.None?
    ensures succeeded ==> r.memos == RemoveById(v.memos, id) && r.error == v.error
                          && forall m | m in r.memos :: m.id != id
    ensures !succeeded ==> r.memos == v.memos && r.error == Some(RestoreFailedMessage)
    ensures r.deletingId == v.deletingId && r.query == v.query
  {
    if succeeded then v.(memos := RemoveById(v.memos, id), restoringId := None)
    else v.(error := Some(RestoreFailedMessage), restoringId := None)
  }

  /** `handlePermanentDelete` up to the request; `confirmed` is the user's
      answer to the confirmation dialog. A declined one sends nothing and
      changes nothing. */
  function StartPermanentDelete(v: Trash, id: Id, confirmed: bool): (r: (Trash, Option<Id>))
    ensures r.1.Some? <==> confirmed
    ensures !confirmed ==> r.0 == v
    ensures confirmed ==> r.1 == Some(id) && r.0.deletingId == Some(id)
    ensures r.0.memos == v.memos && r.0.error == v.error && r.0.restoringId == v.restoringId
            && r.0.query == v.query
  {
    if !confirmed then (v, None) else (v.(deletingId := Some(id)), Some(id))
  }

  /** The answer to a permanent-delete request: success drops the memo;
      failure keeps it and shows "Failed to delete memo". The deleting mark
      is cleared either way. */
  function FinishPermanentDelete(v: Trash, id: Id, succeeded: bool): (r: Trash)
    ensures r.deletingId.None?
    ensures succeeded ==> r.memos == RemoveById(v.memos, id) && r.error == v.error
                          && forall m | m in r.memos :: m.id != id
    ensures !succeeded ==> r.memos == v.memos && r.error == Some(DeleteFailedMessage)
    ensures r.restoringId == v.restoringId && r.query == v.query
  {
    if succeeded then v.(memos := RemoveById(v.memos, id), deletingId := None)
    else v.(error := Some(DeleteFailedMessage), deletingId := None)
  }

  /** `handleClearSearch`: empties the search box and changes nothing else. */
  function ClearSearch(v: Trash): (r: Trash)
    ensures r.query == [] && r.memos == v.memos && r.error == v.error
            && r.restoringId == v.restoringId && r.deletingId == v.deletingId
  {
    v.(query := [])
  }

  /** After clearing the search every loaded memo is shown. */
  lemma ClearedSearchShowsAll(v: Trash)
    ensures Shown(ClearSearch(v)) == v.memos
  {
  }

  /** A successful restore and a successful permanent delete leave the same
      list behind, and what the page then shows is what it showed before
      without the memo; a failed one leaves the shown list as it was. */
  lemma RemovalHandlersUpdateWhatIsShown(v: Trash, id: Id, succeeded: bool)
    ensures var restored := FinishRestore(StartRestore(v, id).0, id, succeeded);
            var deleted := FinishPermanentDelete(StartPermanentDelete(v, id, true).0, id, succeeded);
            && restored.memos == deleted.memos
            && (succeeded ==> Shown(restored) == RemoveById(Shown(v), id))
            && (!succeeded ==> Shown(restored) == Shown(v))
  {
    RemovalCommutesWithSearch(v.memos, v.query, id);
  }


  lemma LowerKeepsBlankness(s: string)
    ensures IsBlank(JavaScript, Lower(s)) <==> IsBlank(JavaScript, s)
  {
    assert forall i | 0 <= i < |s| :: IsSpace(JavaScript, Lower(s)[i]) == IsSpace(JavaScript, s[i]);
  }

  /** Lower-casing twice is lower-casing once. */
  lemma LowerIdempotent(s: string)
    ensures Lower(Lower(s)) == Lower(s)
  {
    assert forall i | 0 <= i < |s| :: Lower(Lower(s))[i] == Lower(s)[i];
  }

  /** The search ignores the case of the query. */
  lemma SearchIgnoresQueryCase(memos: seq<Memo>, query: string)
    ensures FilteredMemos(memos, Lower(query)) == FilteredMemos(memos, query)
  {
    LowerKeepsBlankness(query);
    LowerIdempotent(query);
  }

  /** The query is not trimmed: padding around a word is searched for, so
      " a" finds "b a" but not "a". */
  lemma QueryPaddingIsSearched(m1: Memo, m2: Memo)
    requires m1.content == "a" && m2.content == "b a"
    ensures FilteredMemos([m1, m2], " a") == [m2]
  {
    var q := " a";
    assert !IsBlank(JavaScript, q) by { assert !IsSpace(JavaScript, q[1]); }
    assert Lower(q) == q by { assert Lower(q)[0] == q[0] && Lower(q)[1] == q[1]; }
    assert Lower(m1.content) == "a" by { assert Lower(m1.content)[0] == 'a'; }
    assert Lower(m2.content) == "b a" by {
      assert Lower(m2.content)[0] == 'b' && Lower(m2.content)[1] == ' ' && Lower(m2.content)[2] == 'a';
    }
    assert !Contains("a", q);
    assert OccursAt("b a", q, 1);
    assert Filter([m2], Matches(q)) == [m2];
    assert [m1, m2][1..] == [m2];
  }

  /** A restore or a permanent delete drops the memo from the list; what
      the search then shows is the previous search result without it. */
  lemma RemovalCommutesWithSearch(memos: seq<Memo>, query: string, id: Id)
    ensures FilteredMemos(RemoveById(memos, id), query) == RemoveById(FilteredMemos(memos, query), id)
  {
    if !IsBlank(JavaScript, query) {
      FilterCommutes(memos, Matches(Lower(query)), id);
    }
  }

  /** Filtering by two predicates in either order gives the same list. */
  lemma {:induction false} FilterCommutes(s: seq<Memo>, p: Memo -> bool, id: Id)
    ensures Filter(RemoveById(s, id), p) == RemoveById(Filter(s, p), id)
  {
    if s != [] {
      FilterCommutes(s[1..], p, id);
      RemoveByIdCons(s, id);
      if p(s[0]) {
        assert Filter(s, p) == [s[0]] + Filter(s[1..], p);
        RemoveByIdCons(Filter(s, p), id);
        assert Filter(s, p)[1..] == Filter(s[1..], p);
      }
      if s[0].id != id {
        assert RemoveById(s, id) == [s[0]] + RemoveById(s[1..], id);
        assert RemoveById(s, id)[1..] == RemoveById(s[1..], id);
      }
    }
  }
}

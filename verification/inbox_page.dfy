/** The inbox page's handlers: deleting a memo, starting, typing, saving and
    cancelling an edit, and applying the server's answers to the local
    list. Each handler is split at its request: a function for what happens
    before it (and which request, if any, is made) and one per answer. */
module InboxPage {
  import opened Wrappers
  import opened Primitives
  import opened Text
  import opened MemoList

  const EmptyContentMessage: string := "Content cannot be empty"
  const UpdateFailedMessage: string := "Failed to update memo"
  const DeleteFailedMessage: string := "Failed to delete memo"

  /** The memo being edited and the text in its editor. */
  datatype Editing = Editing(id: Id, content: string)

  datatype Inbox = Inbox(memos: seq<Memo>, error: Option<string>, editing: Option<Editing>,
                         updatingId: Option<Id>, deletingId: Option<Id>)

  /** An update request: the memo id and the content sent. */
  datatype UpdateRequest = UpdateRequest(id: Id, content: string)

  /** `handleDelete` up to the request; `confirmed` is the user's answer to
      the confirmation dialog. */
  function StartDelete(v: Inbox, id: Id, confirmed: bool): (r: (Inbox, Option<Id>))
    ensures r.1.Some? <==> confirmed
    ensures !confirmed ==> r.0 == v
    ensures confirmed ==> r.1 == Some(id) && r.0.deletingId == Some(id)
    ensures r.0.memos == v.memos && r.0.error == v.error && r.0.editing == v.editing
            && r.0.updatingId == v.updatingId
  {
    if !confirmed then (v, None) else (v.(deletingId := Some(id)), Some(id))
  }

  /** The answer to a delete request. */
  function FinishDelete(v: Inbox, id: Id, succeeded: bool): (r: Inbox)
    ensures r.deletingId.None?
    ensures succeeded ==> r.memos == RemoveById(v.memos, id) && r.error == v.error
    ensures !succeeded ==> r.memos == v.memos && r.error == Some(DeleteFailedMessage)
    ensures r.editing == v.editing && r.updatingId == v.updatingId
  {
    if succeeded then v.(memos := RemoveById(v.memos, id), deletingId := None)
    else v.(error := Some(DeleteFailedMessage), deletingId := None)
  }

  /** The memo methods the page's API client defines, by name. */
  const ClientMethods: set<string> :=
    {"getAll", "getTrash", "getById", "create", "update", "softDelete", "restore",
     "permanentlyDelete", "getMemoTags", "setMemoTags", "addTagToMemo", "removeTagFromMemo"}

  /** `handleDelete` as written: it calls the client's `delete`, which the
      client does not define, so the call throws before any request is made
      and the page always takes its failure path. */
  function HandleDeleteAsWritten(v: Inbox, id: Id, confirmed: bool): (r: Inbox)
    ensures !confirmed ==> r == v
    ensures confirmed ==> && r.memos == v.memos && r.error == Some(DeleteFailedMessage)
                          && r.deletingId.None? && r.editing == v.editing && r.updatingId == v.updatingId
  {
    var (w, sent) := StartDelete(v, id, confirmed);
    if sent.None? then w else FinishDelete(w, id, "delete" in ClientMethods)
  }

  /** `handleDelete` as intended: the delete request is made (the client's
      `softDelete` issues the `DELETE` the backend maps), and `succeeded` is
      its answer. */
  function HandleDelete(v: Inbox, id: Id, confirmed: bool, succeeded: bool): (r: Inbox)
    ensures !confirmed ==> r == v
    ensures confirmed && succeeded ==> && r.memos == RemoveById(v.memos, id) && r.error == v.error
                                       && forall m | m in r.memos :: m.id != id
    ensures confirmed && !succeeded ==> r == HandleDeleteAsWritten(v, id, true)
    ensures r.deletingId == (if confirmed then None else v.deletingId)
  {
    var (w, sent) := StartDelete(v, id, confirmed);
    if sent.None? then w else FinishDelete(w, id, succeeded)
  }

  /** The two part exactly on a successful answer: as written a confirmed
      delete of a listed memo never removes it, as intended it does. */
  lemma DeleteAlwaysFailsAsWritten(v: Inbox, i: nat)
    requires i < |v.memos|
    ensures v.memos[i] in HandleDeleteAsWritten(v, v.memos[i].id, true).memos
    ensures v.memos[i] !in HandleDelete(v, v.memos[i].id, true, true).memos
  {
  }

  /** The edit button of a memo: its editor opens with its content. */
  function StartEdit(v: Inbox, m: Memo): (r: Inbox)
    ensures r.editing == Some(Editing(m.id, m.content))
    ensures r.memos == v.memos && r.error == v.error && r.updatingId == v.updatingId
            && r.deletingId == v.deletingId
  {
    v.(editing := Some(Editing(m.id, m.content)))
  }

  /** Typing into the open editor; with no editor open nothing changes. */
  function Type(v: Inbox, text: string): (r: Inbox)
    ensures v.editing.None? ==> r == v
    ensures v.editing.Some? ==> r.editing == Some(v.editing.value.(content := text))
    ensures r.memos == v.memos && r.error == v.error && r.updatingId == v.updatingId
            && r.deletingId == v.deletingId
  {
    match v.editing
    case None => v
    case Some(e) => v.(editing := Some(e.(content := text)))
  }

  /** `handleEditCancel`: closes the editor unless an update is in flight. */
  function EditCancel(v: Inbox): (r: Inbox)
    ensures v.updatingId.Some? ==> r == v
    ensures v.updatingId.None? ==> r.editing.None?
    ensures r.memos == v.memos && r.error == v.error && r.updatingId == v.updatingId
            && r.deletingId == v.deletingId
  {
    if v.updatingId.Some? then v else v.(editing := None)
  }

  /** `handleEditSave(id)` up to the request. Blank editor text is refused;
      text equal to the stored memo's is a cancel; anything else is sent as
      typed, untrimmed. */
  function StartSave(v: Inbox, id: Id): (r: (Inbox, Option<UpdateRequest>))
    ensures v.editing.None? || IsBlank(JavaScript, v.editing.value.content) ==>
              r == (v.(error := Some(EmptyContentMessage)), None)
    ensures r.1.None? <==> || v.editing.None? || IsBlank(JavaScript, v.editing.value.content)
                           || (var orig := FindById(v.memos, id);
                               orig.Some? && orig.value.content == v.editing.value.content)
    ensures r.1.Some? ==> && r.1.value == UpdateRequest(id, v.editing.value.content)
                          && r.0 == v.(updatingId := Some(id))
    ensures r.1.None? && !(v.editing.None? || IsBlank(JavaScript, v.editing.value.content)) ==>
              r.0 == EditCancel(v)
  {
    match v.editing
    case None => (v.(error := Some(EmptyContentMessage)), None)
    case Some(e) =>
      if IsBlank(JavaScript, e.content) then (v.(error := Some(EmptyContentMessage)), None)
      else
        var orig := FindById(v.memos, id);
        if orig.Some? && orig.value.content == e.content then (EditCancel(v), None)
        else (v.(updatingId := Some(id)), Some(UpdateRequest(id, e.content)))
  }

  /** The answer to an update request: on success the server's memo takes
      the place of every memo with the id, and the editor closes only if it
      still shows that memo. */
  function FinishSave(v: Inbox, id: Id, answer: Option<Memo>): (r: Inbox)
    ensures r.updatingId.None? && r.deletingId == v.deletingId
    ensures answer.Some? ==> && r.memos == ReplaceById(v.memos, id, answer.value)
                             && r.error == v.error
                             && (r.editing.None? <==> v.editing.None? || v.editing.value.id == id)
                             && (r.editing.Some? ==> r.editing == v.editing)
    ensures answer.None? ==> && r.memos == v.memos && r.editing == v.editing
                             && r.error == Some(UpdateFailedMessage)
  {
    match answer
    case Some(updated) =>
      var editing := if v.editing.Some? && v.editing.value.id == id then None else v.editing;
      v.(memos := ReplaceById(v.memos, id, updated), editing := editing, updatingId := None)
    case None =>
      v.(error := Some(UpdateFailedMessage), updatingId := None)
  }

  /** Opening a memo's editor and saving straight away sends nothing and
      closes the editor, provided ids are unique and nothing is in flight. */
  lemma SaveWithoutTypingIsCancel(v: Inbox, i: nat)
    requires i < |v.memos| && v.updatingId.None?
    requires forall j, k | 0 <= j < k < |v.memos| :: v.memos[j].id != v.memos[k].id
    requires !IsBlank(JavaScript, v.memos[i].content)
    ensures StartSave(StartEdit(v, v.memos[i]), v.memos[i].id).1.None?
    ensures StartSave(StartEdit(v, v.memos[i]), v.memos[i].id).0.editing.None?
  {
    var w := StartEdit(v, v.memos[i]);
    var orig := FindById(w.memos, v.memos[i].id);
    assert orig == Some(v.memos[i]);
  }

  /** An edit that only adds padding is not recognised as unchanged: it is
      sent, and the server, which trims, stores the same text again. */
  lemma PaddingOnlyEditIsSent(v: Inbox, m: Memo)
    requires v.memos == [m] && m.content == "a"
    ensures StartSave(Type(StartEdit(v, m), " a"), m.id).1 == Some(UpdateRequest(m.id, " a"))
    ensures Trim(Kotlin, " a") == m.content
  {
    var s := " a";
    assert !IsSpace(Kotlin, s[1]) && IsSpace(Kotlin, s[0]);
    assert !IsBlank(JavaScript, s) by { assert !IsSpace(JavaScript, s[1]); }
    assert Lead(Kotlin, s) == 1;
    TrimmedIsFixed(Kotlin, s[1..]);
  }

  /** While an update is in flight, neither cancel nor an unchanged save
      closes the editor. */
  lemma EditorStaysOpenWhileUpdating(v: Inbox, id: Id)
    requires v.updatingId.Some?
    ensures EditCancel(v) == v
    ensures StartSave(v, id).1.None? && v.editing.Some? ==> StartSave(v, id).0.editing == v.editing
  {
  }

  /** A successful update then delete of the same memo leaves the list a
      plain delete would. */
  lemma SaveThenDelete(v: Inbox, id: Id, updated: Memo)
    requires updated.id == id
    ensures FinishDelete(FinishSave(v, id, Some(updated)), id, true).memos == RemoveById(v.memos, id)
  {
    ReplaceThenRemove(v.memos, id, updated);
  }
}

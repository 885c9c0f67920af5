/** `QuickMemoService`: the memo use cases over the memo table. Each call is
    one transaction: it either fails and leaves the table as it was, or
    succeeds and returns the table it leaves behind. */
module QuickMemoService {
  import opened Wrappers
  import opened Primitives
  import opened Errors
  import opened Text
  import opened QuickMemos
  import opened Seqs
  import opened QuickMemoRepository

  /** The message of the not-found error, naming the id. */
  function NotFoundMessage(id: Id): string
  {
    "QuickMemo not found: " + id
  }

  function NotFound(id: Id): Error
  {
    QuickMemoNotFound(Some(NotFoundMessage(id)))
  }

  /** `createQuickMemo`: builds the memo from the content and saves it.
      Content the memo constructor rejects is reported and nothing is
      saved. */
  function CreateQuickMemo(t: Table, content: string, id: Id, now: Instant): (r: Step<QuickMemo, Table>)
    requires WellFormed(t)
    ensures WellFormed(r.state)
    ensures r.result.Ok? <==> !IsBlank(Kotlin, content) && |Trim(Kotlin, content)| <= MaxContentLength
    ensures r.result.Err? ==> r.state == t && r.result.error == Create(content, id, now).error
    ensures r.result.Ok? ==> && r.result.value.id == id
                             && r.result.value.content == Trim(Kotlin, content)
                             && r.result.value.createdAt == now && r.result.value.updatedAt == now
                             && !IsDeleted(r.result.value)
                             && Ids(r.state) == Ids(t) + {id}
                             && (forall other | other != id :: FindById(r.state, other) == FindById(t, other))
    ensures r.result.Ok? && id !in Ids(t) ==> FindById(r.state, id) == Some(r.result.value)
  {
    match Create(content, id, now)
    case Err(e) => Step(Err(e), t)
    case Ok(m) =>
      var (saved, t') := Save(t, m);
      Step(Ok(saved), t')
  }

  /** `getQuickMemo`: the stored memo, or not-found naming the id. */
  function GetQuickMemo(t: Table, id: Id): (r: Result<QuickMemo, Error>)
    requires WellFormed(t)
    ensures r.Ok? <==> id in Ids(t)
    ensures r.Ok? ==> Some(r.value) == FindById(t, id) && r.value.id == id
    ensures r.Err? ==> r.error == QuickMemoNotFound(Some("QuickMemo not found: " + id))
  {
    match FindById(t, id)
    case None => Err(NotFound(id))
    case Some(m) => Ok(m)
  }

  /** `getAllQuickMemos`: the repository's listing, newest first. */
  function GetAllQuickMemos(t: Table): (r: seq<QuickMemo>)
    requires WellFormed(t)
    ensures r == FindAll(t)
    ensures SortedBy(r, NewerOrSame) && |r| == |t|
  {
    FindAll(t)
  }

  /** `updateQuickMemo`: replaces the content of a stored memo. An unknown id
      and rejected content both leave the table as it was. */
  function UpdateQuickMemo(t: Table, id: Id, content: string, now: Instant): (r: Step<QuickMemo, Table>)
    requires WellFormed(t)
    ensures WellFormed(r.state)
    ensures id !in Ids(t) ==> r == Step(Err(NotFound(id)), t)
    ensures id in Ids(t) ==>
              (r.result.Ok? <==> !IsBlank(Kotlin, content) && |Trim(Kotlin, content)| <= MaxContentLength)
    ensures r.result.Err? ==> r.state == t
    ensures id in Ids(t) && r.result.Err? ==>
              && r.result.error == UpdateContent(FindById(t, id).value, content, now).error
              && r.result.error == IllegalArgument(Some(if IsBlank(Kotlin, content) then BlankContentMessage
                                                        else ContentTooLongMessage))
    ensures r.result.Ok? ==> && var before := FindById(t, id).value;
                             && r.result.value == before.(content := Trim(Kotlin, content), updatedAt := now)
                             && FindById(r.state, id) == Some(r.result.value)
                             && Ids(r.state) == Ids(t)
                             && (forall other | other != id :: FindById(r.state, other) == FindById(t, other))
  {
    match FindById(t, id)
    case None => Step(Err(NotFound(id)), t)
    case Some(existing) =>
      match UpdateContent(existing, content, now)
      case Err(e) => Step(Err(e), t)
      case Ok(updated) =>
        var (saved, t') := Save(t, updated);
        Step(Ok(saved), t')
  }

  /** `deleteQuickMemo`: removes the memo for good. An unknown id is
      reported and nothing changes. */
  function DeleteQuickMemo(t: Table, id: Id): (r: Step<(), Table>)
    requires WellFormed(t)
    ensures WellFormed(r.state)
    ensures r.result.Ok? <==> id in Ids(t)
    ensures r.result.Err? ==> r == Step(Err(NotFound(id)), t)
    ensures r.result.Ok? ==> && Ids(r.state) == Ids(t) - {id}
                             && (forall other | other != id :: FindById(r.state, other) == FindById(t, other))
  {
    if !ExistsById(t, id) then Step(Err(NotFound(id)), t)
    else Step(Ok(()), Delete(t, id))
  }

  /** A memo created under a fresh id is then found by it. */
  lemma CreateThenGet(t: Table, content: string, id: Id, now: Instant)
    requires WellFormed(t) && id !in Ids(t)
    requires CreateQuickMemo(t, content, id, now).result.Ok?
    ensures GetQuickMemo(CreateQuickMemo(t, content, id, now).state, id)
              == CreateQuickMemo(t, content, id, now).result
  {
  }

  /** What `updateQuickMemo` returns is what a later `getQuickMemo` sees. */
  lemma UpdateThenGet(t: Table, id: Id, content: string, now: Instant)
    requires WellFormed(t)
    requires UpdateQuickMemo(t, id, content, now).result.Ok?
    ensures GetQuickMemo(UpdateQuickMemo(t, id, content, now).state, id)
              == UpdateQuickMemo(t, id, content, now).result
  {
  }

  /** After a delete the memo is gone, and deleting it again is not-found. */
  lemma DeleteThenGet(t: Table, id: Id)
    requires WellFormed(t) && id in Ids(t)
    ensures GetQuickMemo(DeleteQuickMemo(t, id).state, id) == Err(NotFound(id))
    ensures DeleteQuickMemo(DeleteQuickMemo(t, id).state, id).result == Err(NotFound(id))
  {
  }
}

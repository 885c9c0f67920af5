/** `QuickMemoController`: the `/api/quick-memos` endpoints as compositions
    of request binding, service calls and error handling over the whole
    backend state. Arguments bind in declaration order: a path variable that
    is not a UUID is reported before the body is read, and the body is
    validated before the method body runs. The response DTOs are field
    copies; a memo is returned together with its tags. */
module QuickMemoController {
  import opened Wrappers
  import opened Primitives
  import opened Errors
  import opened Text
  import opened QuickMemos
  import opened Tags
  import opened ExceptionHandler
  import Requests
  import QuickMemoRepository
  import TagRepository
  import MemoTagRepository
  import QuickMemoService
  import TagService

  /** The three tables. */
  datatype System = System(memos: QuickMemoRepository.Table, tags: TagRepository.Table,
                           pairs: MemoTagRepository.Pairs)

  predicate WellFormedSystem(s: System)
  {
    QuickMemoRepository.WellFormed(s.memos) && TagRepository.WellFormed(s.tags)
  }

  datatype Response<+T> = Success(status: nat, body: T) | Failure(error: ErrorResponse)

  datatype Exchange<+T> = Exchange(response: Response<T>, state: System)

  datatype MemoWithTags = MemoWithTags(memo: QuickMemo, tags: set<Tag>)

  const Created: nat := 201
  const OkStatus: nat := 200
  const NoContent: nat := 204

  function TagStore(s: System): TagService.TagStore
  {
    TagService.TagStore(s.tags, s.pairs)
  }

  function Fail<T>(e: Error, s: System): (r: Exchange<T>)
    ensures r.state == s && r.response == Failure(Handle(e))
  {
    Exchange(Failure(Handle(e)), s)
  }

  /** The tags shown with a memo. */
  function TagsOf(s: System, memo: Id): set<Tag>
    requires WellFormedSystem(s)
  {
    TagService.GetTagsForMemo(TagStore(s), memo)
  }

  /** `POST /api/quick-memos`: validates the body, creates the memo, answers
      201 with it. */
  function CreateQuickMemo(s: System, content: string, id: Id, now: Instant): (r: Exchange<QuickMemo>)
    requires WellFormedSystem(s)
    ensures WellFormedSystem(r.state) && r.state.tags == s.tags && r.state.pairs == s.pairs
    ensures r.response.Success? <==> Requests.ValidateCreateQuickMemo(content).Ok? && !IsBlank(Kotlin, content)
    ensures r.response.Failure? ==> r.state == s && r.response.error.status == 400
    ensures r.response.Success? ==> && r.response.status == Created
                                    && r.response.body.content == Trim(Kotlin, content)
                                    && r.response.body.id == id
  {
    match Requests.ValidateCreateQuickMemo(content)
    case Err(e) => Fail(e, s)
    case Ok(c) =>
      Requests.ValidatedContentMeetsDomain(c, id, now);
      var step := QuickMemoService.CreateQuickMemo(s.memos, c, id, now);
      match step.result
      case Err(e) => Fail(e, s)
      case Ok(m) => Exchange(Success(Created, m), s.(memos := step.state))
  }

  /** `GET /api/quick-memos`: every memo in the service's order, each with
      its tags. */
  function GetAllQuickMemos(s: System): (r: Exchange<seq<MemoWithTags>>)
    requires WellFormedSystem(s)
    ensures r.state == s && r.response.Success? && r.response.status == OkStatus
    ensures |r.response.body| == |QuickMemoService.GetAllQuickMemos(s.memos)|
    ensures forall i | 0 <= i < |r.response.body| ::
              && r.response.body[i].memo == QuickMemoService.GetAllQuickMemos(s.memos)[i]
              && r.response.body[i].tags == TagsOf(s, r.response.body[i].memo.id)
  {
    var ms := QuickMemoService.GetAllQuickMemos(s.memos);
    Exchange(Success(OkStatus, seq(|ms|, i requires 0 <= i < |ms| => MemoWithTags(ms[i], TagsOf(s, ms[i].id)))), s)
  }

  /** `GET /api/quick-memos/{id}`. */
  function GetQuickMemo(s: System, path: string): (r: Exchange<MemoWithTags>)
    requires WellFormedSystem(s)
    ensures r.state == s
    ensures !Requests.IsUuidText(path) ==> r.response == Failure(Handle(ArgumentTypeMismatch))
    ensures Requests.IsUuidText(path) ==>
              var id := Requests.ParseUuid(path).value;
              && (r.response.Success? <==> id in QuickMemoRepository.Ids(s.memos))
              && (r.response.Failure? ==>
                    r.response.error == ErrorResponse(404, "Not Found", "QuickMemo not found: " + id))
              && (r.response.Success? ==> r.response == Success(OkStatus,
                    MemoWithTags(QuickMemoRepository.FindById(s.memos, id).value, TagsOf(s, id))))
  {
    match Requests.BindPathId(path)
    case Err(e) => Fail(e, s)
    case Ok(id) =>
      match QuickMemoService.GetQuickMemo(s.memos, id)
      case Err(e) => Fail(e, s)
      case Ok(m) => Exchange(Success(OkStatus, MemoWithTags(m, TagsOf(s, m.id))), s)
  }

  /** `GET /api/quick-memos/{id}` with the exception handler as written,
      whose not-found handler never sees the service's not-found. */
  function GetQuickMemoAsWritten(s: System, path: string): (r: Exchange<MemoWithTags>)
    requires WellFormedSystem(s)
    ensures r.state == s
    ensures r.response.Success? <==> GetQuickMemo(s, path).response.Success?
    ensures r.response.Success? ==> r == GetQuickMemo(s, path)
    ensures !Requests.IsUuidText(path) ==> r == GetQuickMemo(s, path)
    ensures Requests.IsUuidText(path) && r.response.Failure? ==> r.response.error == Unexpected
  {
    match Requests.BindPathId(path)
    case Err(e) => Exchange(Failure(HandleAsWritten(e)), s)
    case Ok(id) =>
      match QuickMemoService.GetQuickMemo(s.memos, id)
      case Err(e) => Exchange(Failure(HandleAsWritten(e)), s)
      case Ok(m) => Exchange(Success(OkStatus, MemoWithTags(m, TagsOf(s, m.id))), s)
  }

  /** The two mappings part only on an unknown id: as written it answers 500
      "Internal Server Error", where the tests expect 404 "Not Found". */
  lemma UnknownIdAnswers500AsWritten(s: System, path: string)
    requires WellFormedSystem(s) && Requests.IsUuidText(path)
    requires Requests.ParseUuid(path).value !in QuickMemoRepository.Ids(s.memos)
    ensures GetQuickMemoAsWritten(s, path).response
              == Failure(ErrorResponse(500, "Internal Server Error", "An unexpected error occurred"))
    ensures GetQuickMemo(s, path).response.error.status == 404
    ensures GetQuickMemo(s, path).response.error.error == "Not Found"
  {
  }

  /** The trash listing the frontend asks for, `GET /api/quick-memos/trash`,
      has no mapping of its own. It reaches `GET /{id}` with "trash" as the
      id, which is not a UUID, so both handler mappings answer it 400. */
  lemma TrashListingIsABadId(s: System)
    requires WellFormedSystem(s)
    ensures GetQuickMemo(s, "trash").response == Failure(ErrorResponse(400, "Bad Request", "Invalid parameter type"))
    ensures GetQuickMemoAsWritten(s, "trash") == GetQuickMemo(s, "trash")
  {
  }

  /** `PUT /api/quick-memos/{id}`: the path, then the body's bean
      validation, then the service. Invalid content is a validation error
      even for an unknown id, because the body is validated before the
      method body looks the memo up. */
  function UpdateQuickMemo(s: System, path: string, content: string, now: Instant): (r: Exchange<MemoWithTags>)
    requires WellFormedSystem(s)
    ensures WellFormedSystem(r.state) && r.state.tags == s.tags && r.state.pairs == s.pairs
    ensures r.response.Failure? ==> r.state == s
    ensures !Requests.IsUuidText(path) ==> r.response == Failure(Handle(ArgumentTypeMismatch))
    ensures Requests.IsUuidText(path) && Requests.ValidateUpdateQuickMemo(content).Err? ==>
              && r.response == Failure(Handle(Requests.ValidateUpdateQuickMemo(content).error))
              && r.response.error.status == 400 && r.response.error.error == "Validation Error"
    ensures Requests.IsUuidText(path) && Requests.ValidateUpdateQuickMemo(content).Ok?
            && Requests.ParseUuid(path).value !in QuickMemoRepository.Ids(s.memos) ==>
              r.response == Failure(ErrorResponse(404, "Not Found",
                                                  "QuickMemo not found: " + Requests.ParseUuid(path).value))
    ensures r.response.Success? <==> && Requests.IsUuidText(path) && Requests.ValidateUpdateQuickMemo(content).Ok?
                                     && Requests.ParseUuid(path).value in QuickMemoRepository.Ids(s.memos)
                                     && !IsBlank(Kotlin, content)
    ensures r.response.Success? ==> && r.response.status == OkStatus
                                    && r.response.body.memo.content == Trim(Kotlin, content)
                                    && r.response.body.memo.updatedAt == now
                                    && GetQuickMemo(r.state, path).response == r.response
  {
    match Requests.BindPathId(path)
    case Err(e) => Fail(e, s)
    case Ok(id) =>
      match Requests.ValidateUpdateQuickMemo(content)
      case Err(e) => Fail(e, s)
      case Ok(c) =>
        var step := QuickMemoService.UpdateQuickMemo(s.memos, id, c, now);
        match step.result
        case Err(e) => Fail(e, s)
        case Ok(m) =>
          var s' := s.(memos := step.state);
          Exchange(Success(OkStatus, MemoWithTags(m, TagsOf(s', m.id))), s')
  }

  /** A blank update is a validation error whether or not the memo exists,
      and a known memo stays as it was. */
  lemma BlankUpdateIsValidationError(s: System, path: string, now: Instant)
    requires WellFormedSystem(s) && Requests.IsUuidText(path)
    ensures UpdateQuickMemo(s, path, "   ", now).response.Failure?
    ensures UpdateQuickMemo(s, path, "   ", now).response.error.error == "Validation Error"
    ensures UpdateQuickMemo(s, path, "   ", now).state == s
  {
    assert IsBlank(JavaTrim, "   ") by {
      assert forall i | 0 <= i < 3 :: IsSpace(JavaTrim, "   "[i]);
    }
  }

  /** `DELETE /api/quick-memos/{id}`: 204 once the memo is gone. Its tag
      pairs stay in the pair table. */
  function DeleteQuickMemo(s: System, path: string): (r: Exchange<()>)
    requires WellFormedSystem(s)
    ensures WellFormedSystem(r.state) && r.state.tags == s.tags && r.state.pairs == s.pairs
    ensures r.response.Failure? ==> r.state == s
    ensures !Requests.IsUuidText(path) ==> r.response == Failure(Handle(ArgumentTypeMismatch))
    ensures Requests.IsUuidText(path) ==>
              var id := Requests.ParseUuid(path).value;
              && (r.response.Success? <==> id in QuickMemoRepository.Ids(s.memos))
              && (r.response.Failure? ==> r.response.error.status == 404)
              && (r.response.Success? ==> r.response.status == NoContent
                                          && QuickMemoRepository.Ids(r.state.memos) == QuickMemoRepository.Ids(s.memos) - {id})
  {
    match Requests.BindPathId(path)
    case Err(e) => Fail(e, s)
    case Ok(id) =>
      var step := QuickMemoService.DeleteQuickMemo(s.memos, id);
      match step.result
      case Err(e) => Fail(e, s)
      case Ok(_) => Exchange(Success(NoContent, ()), s.(memos := step.state))
  }

  /** The guard every tag endpoint runs first: the memo must exist. */
  function MemoGuard(s: System, id: Id): (r: Option<Error>)
    requires WellFormedSystem(s)
    ensures r.None? <==> id in QuickMemoRepository.Ids(s.memos)
    ensures r.Some? ==> Handle(r.value).status == 404
  {
    match QuickMemoService.GetQuickMemo(s.memos, id)
    case Err(e) => Some(e)
    case Ok(_) => None
  }

  /** `GET /api/quick-memos/{id}/tags`. */
  function GetMemoTags(s: System, path: string): (r: Exchange<set<Tag>>)
    requires WellFormedSystem(s)
    ensures r.state == s
    ensures !Requests.IsUuidText(path) ==> r.response == Failure(Handle(ArgumentTypeMismatch))
    ensures Requests.IsUuidText(path) ==>
              var id := Requests.ParseUuid(path).value;
              && (r.response.Success? <==> id in QuickMemoRepository.Ids(s.memos))
              && (r.response.Failure? ==> r.response.error.status == 404)
              && (r.response.Success? ==> r.response == Success(OkStatus, TagsOf(s, id)))
  {
    match Requests.BindPathId(path)
    case Err(e) => Fail(e, s)
    case Ok(id) =>
      match MemoGuard(s, id)
      case Some(e) => Fail(e, s)
      case None => Exchange(Success(OkStatus, TagsOf(s, id)), s)
  }

  /** `PUT /api/quick-memos/{id}/tags`: replaces the memo's tags and answers
      with the tags it has afterwards. An empty list is refused by the
      request check, so this endpoint can never leave a memo untagged. */
  function SetMemoTags(s: System, path: string, elements: seq<string>): (r: Exchange<set<Tag>>)
    requires WellFormedSystem(s)
    ensures WellFormedSystem(r.state) && r.state.memos == s.memos && r.state.tags == s.tags
    ensures r.response.Failure? ==> r.state == s
    ensures !Requests.IsUuidText(path) ==> r.response == Failure(Handle(ArgumentTypeMismatch))
    ensures Requests.IsUuidText(path) && Requests.BindSetTags(elements).Err? ==>
              r.response == Failure(Handle(Requests.BindSetTags(elements).error))
    ensures Requests.IsUuidText(path) && Requests.BindSetTags(elements).Ok?
            && Requests.ParseUuid(path).value !in QuickMemoRepository.Ids(s.memos) ==>
              r.response.Failure? && r.response.error.status == 404
    ensures r.response.Success? <==>
              && Requests.IsUuidText(path) && Requests.BindSetTags(elements).Ok?
              && Requests.ParseUuid(path).value in QuickMemoRepository.Ids(s.memos)
              && forall i | 0 <= i < |Requests.BindSetTags(elements).value| ::
                   Requests.BindSetTags(elements).value[i] in TagRepository.Ids(s.tags)
    ensures Requests.IsUuidText(path) && Requests.BindSetTags(elements).Ok?
            && Requests.ParseUuid(path).value in QuickMemoRepository.Ids(s.memos) && r.response.Failure? ==>
              var ids := Requests.BindSetTags(elements).value;
              exists k | 0 <= k < |ids| :: && ids[k] !in TagRepository.Ids(s.tags)
                                           && (forall j | 0 <= j < k :: ids[j] in TagRepository.Ids(s.tags))
                                           && r.response == Failure(Handle(TagService.NotFound(ids[k])))
    ensures r.response.Success? ==>
              var id := Requests.ParseUuid(path).value;
              && r.response == Success(OkStatus, TagsOf(r.state, id))
              && MemoTagRepository.FindTagIdsByMemoId(r.state.pairs, id) != {}
              && MemoTagRepository.FindTagIdsByMemoId(r.state.pairs, id)
                   == set t | t in Requests.BindSetTags(elements).value
  {
    match Requests.BindPathId(path)
    case Err(e) => Fail(e, s)
    case Ok(id) =>
      match Requests.BindSetTags(elements)
      case Err(e) => Fail(e, s)
      case Ok(ids) =>
        match MemoGuard(s, id)
        case Some(e) => Fail(e, s)
        case None =>
          var step := TagService.SetTagsForMemo(TagStore(s), id, ids);
          match step.result
          case Err(e) => Fail(e, s)
          case Ok(_) =>
            var s' := s.(pairs := step.state.pairs);
            assert ids[0] in set t | t in ids;
            Exchange(Success(OkStatus, TagsOf(s', id)), s')
  }

  /** `POST /api/quick-memos/{id}/tags/{tagId}`. */
  function AddTagToMemo(s: System, path: string, tagPath: string): (r: Exchange<set<Tag>>)
    requires WellFormedSystem(s)
    ensures WellFormedSystem(r.state) && r.state.memos == s.memos && r.state.tags == s.tags
    ensures r.response.Failure? ==> r.state == s
    ensures !Requests.IsUuidText(path) || !Requests.IsUuidText(tagPath) ==>
              r.response == Failure(Handle(ArgumentTypeMismatch))
    ensures Requests.IsUuidText(path) && Requests.IsUuidText(tagPath)
            && Requests.ParseUuid(path).value !in QuickMemoRepository.Ids(s.memos) ==>
              r.response.Failure? && r.response.error.status == 404
    ensures r.response.Success? <==>
              && Requests.IsUuidText(path) && Requests.IsUuidText(tagPath)
              && Requests.ParseUuid(path).value in QuickMemoRepository.Ids(s.memos)
              && Requests.ParseUuid(tagPath).value in TagRepository.Ids(s.tags)
    ensures Requests.IsUuidText(path) && Requests.IsUuidText(tagPath)
            && Requests.ParseUuid(path).value in QuickMemoRepository.Ids(s.memos)
            && Requests.ParseUuid(tagPath).value !in TagRepository.Ids(s.tags) ==>
              r.response == Failure(Handle(TagService.NotFound(Requests.ParseUuid(tagPath).value)))
    ensures r.response.Success? ==>
              var id := Requests.ParseUuid(path).value;
              var tag := Requests.ParseUuid(tagPath).value;
              && r.response == Success(OkStatus, TagsOf(r.state, id))
              && r.state.pairs == s.pairs + {(id, tag)}
              && tag in TagRepository.Ids(s.tags)
              && TagRepository.FindById(s.tags, tag).value in r.response.body
  {
    match (Requests.BindPathId(path), Requests.BindPathId(tagPath))
    case (Err(e), _) => Fail(e, s)
    case (_, Err(e)) => Fail(e, s)
    case (Ok(id), Ok(tag)) =>
      match MemoGuard(s, id)
      case Some(e) => Fail(e, s)
      case None =>
        var step := TagService.AddTagToMemo(TagStore(s), id, tag);
        match step.result
        case Err(e) => Fail(e, s)
        case Ok(_) =>
          var s' := s.(pairs := step.state.pairs);
          Exchange(Success(OkStatus, TagsOf(s', id)), s')
  }

  /** `DELETE /api/quick-memos/{id}/tags/{tagId}`. */
  function RemoveTagFromMemo(s: System, path: string, tagPath: string): (r: Exchange<set<Tag>>)
    requires WellFormedSystem(s)
    ensures WellFormedSystem(r.state) && r.state.memos == s.memos && r.state.tags == s.tags
    ensures r.response.Failure? ==> r.state == s
    ensures !Requests.IsUuidText(path) || !Requests.IsUuidText(tagPath) ==>
              r.response == Failure(Handle(ArgumentTypeMismatch))
    ensures Requests.IsUuidText(path) && Requests.IsUuidText(tagPath) ==>
              var id := Requests.ParseUuid(path).value;
              var tag := Requests.ParseUuid(tagPath).value;
              && (r.response.Success? <==> id in QuickMemoRepository.Ids(s.memos))
              && (r.response.Failure? ==> r.response.error.status == 404)
              && (r.response.Success? ==> && r.response == Success(OkStatus, TagsOf(r.state, id))
                                          && r.state.pairs == s.pairs - {(id, tag)}
                                          && forall t | t in r.response.body :: t.id != tag)
  {
    match (Requests.BindPathId(path), Requests.BindPathId(tagPath))
    case (Err(e), _) => Fail(e, s)
    case (_, Err(e)) => Fail(e, s)
    case (Ok(id), Ok(tag)) =>
      match MemoGuard(s, id)
      case Some(e) => Fail(e, s)
      case None =>
        var step := TagService.RemoveTagFromMemo(TagStore(s), id, tag);
        var s' := s.(pairs := step.state.pairs);
        Exchange(Success(OkStatus, TagsOf(s', id)), s')
  }

  /** A tag endpoint aimed at a memo that does not exist answers 404 and
      changes nothing, whatever the rest of the request says. */
  lemma TagEndpointsGuardTheMemo(s: System, path: string, tagPath: string, elements: seq<string>)
    requires WellFormedSystem(s)
    requires Requests.IsUuidText(path) && Requests.IsUuidText(tagPath)
    requires Requests.BindSetTags(elements).Ok?
    requires Requests.ParseUuid(path).value !in QuickMemoRepository.Ids(s.memos)
    ensures GetMemoTags(s, path).response.Failure? && GetMemoTags(s, path).state == s
    ensures SetMemoTags(s, path, elements).response.Failure? && SetMemoTags(s, path, elements).state == s
    ensures AddTagToMemo(s, path, tagPath).response.Failure? && AddTagToMemo(s, path, tagPath).state == s
    ensures RemoveTagFromMemo(s, path, tagPath).response.Failure? && RemoveTagFromMemo(s, path, tagPath).state == s
  {
  }
}

/** `TagService`: the tag use cases over the tag table and the memo-tag
    pairs. Each call is one transaction: a failure leaves both stores as they
    were. */
module TagService {
  import opened Wrappers
  import opened Primitives
  import opened Errors
  import opened Text
  import opened Tags
  import opened Seqs
  import opened TagRepository
  import MemoTagRepository

  /** The state the service works on. */
  datatype TagStore = TagStore(tags: TagRepository.Table, pairs: MemoTagRepository.Pairs)

  predicate WellFormedStore(s: TagStore)
  {
    TagRepository.WellFormed(s.tags)
  }

  function NotFound(id: Id): Error
  {
    TagNotFound("Tag not found: " + id)
  }

  function AlreadyExists(name: string): Error
  {
    TagAlreadyExists("Tag already exists: " + name)
  }

  /** `createTag`: refuses a name that is stored exactly as given, otherwise
      builds the tag (which trims the name) and saves it. The lookup uses the
      name as given while the saved name is trimmed, so a padded copy of a
      stored name passes the lookup and is refused by the unique constraint
      instead. */
  function CreateTag(s: TagStore, name: string, id: Id, now: Instant): (r: Step<Tag, TagStore>)
    requires WellFormedStore(s)
    ensures WellFormedStore(r.state) && r.state.pairs == s.pairs
    ensures r.result.Err? ==> r.state == s
    ensures name in Names(s.tags) ==> r.result == Err(AlreadyExists(name))
    ensures r.result.Ok? <==> && name !in Names(s.tags)
                              && ValidName(Trim(Kotlin, name))
                              && !NameTakenByOther(s.tags, Trim(Kotlin, name), id)
    ensures name !in Names(s.tags) && r.result.Err? && r.result.error.IllegalArgument? ==>
              !ValidName(Trim(Kotlin, name))
    ensures name !in Names(s.tags) && Tags.Create(name, id, now).Err? ==>
              r == Step(Tags.Create(name, id, now), s)
    ensures name !in Names(s.tags) && ValidName(Trim(Kotlin, name))
            && NameTakenByOther(s.tags, Trim(Kotlin, name), id) ==>
              r == Step(Err(DataIntegrityViolation), s)
    ensures r.result.Ok? ==> && r.result.value == Tag(id, Trim(Kotlin, name), now)
                             && FindByName(r.state.tags, Trim(Kotlin, name)).Some?
                             && FindByName(r.state.tags, Trim(Kotlin, name)).value.id == id
                             && Ids(r.state.tags) == Ids(s.tags) + {id}
                             && (id !in Ids(s.tags) ==> FindById(r.state.tags, id) == Some(r.result.value))
                             && forall other | other != id :: FindById(r.state.tags, other) == FindById(s.tags, other)
  {
    if FindByName(s.tags, name).Some? then Step(Err(AlreadyExists(name)), s)
    else
      match Tags.Create(name, id, now)
      case Err(e) => Step(Err(e), s)
      case Ok(tag) =>
        var saved := Save(s.tags, tag);
        Step(saved.result, s.(tags := saved.state))
  }

  /** A padded copy of a stored name is not reported as a duplicate: it
      reaches the database and fails there. */
  lemma PaddedDuplicateReachesTheDatabase(s: TagStore, name: string, id: Id, now: Instant)
    requires WellFormedStore(s)
    requires name !in Names(s.tags)
    requires Trim(Kotlin, name) in Names(s.tags)
    requires FindByName(s.tags, Trim(Kotlin, name)).value.id != id
    ensures CreateTag(s, name, id, now) == Step(Err(DataIntegrityViolation), s)
  {
    var existing := FindByName(s.tags, Trim(Kotlin, name)).value;
    var i :| 0 <= i < |s.tags| && s.tags[i] == FromDomain(existing);
    assert s.tags[i].name == Trim(Kotlin, name) && s.tags[i].id != id;
  }

  /** `getAllTags`: every tag, by ascending name. */
  function GetAllTags(s: TagStore): (r: seq<Tag>)
    requires WellFormedStore(s)
    ensures r == FindAll(s.tags)
    ensures SortedBy(r, NameAscending)
  {
    FindAll(s.tags)
  }

  /** `getTag`: the stored tag, or not-found naming the id. */
  function GetTag(s: TagStore, id: Id): (r: Result<Tag, Error>)
    requires WellFormedStore(s)
    ensures r.Ok? <==> id in Ids(s.tags)
    ensures r.Ok? ==> Some(r.value) == FindById(s.tags, id)
    ensures r.Err? ==> r.error == TagNotFound("Tag not found: " + id)
  {
    match FindById(s.tags, id)
    case None => Err(NotFound(id))
    case Some(tag) => Ok(tag)
  }

  /** `getTagsForMemo`: the existing tags the memo is paired with. */
  function GetTagsForMemo(s: TagStore, memo: Id): (r: set<Tag>)
    requires WellFormedStore(s)
    ensures forall tag :: tag in r <==> (memo, tag.id) in s.pairs && FindById(s.tags, tag.id) == Some(tag)
  {
    MemoTagRepository.GetTagsForMemo(s.pairs, s.tags, memo)
  }

  /** `addTagToMemo`: pairs an existing tag with the memo. The memo itself is
      not checked here. */
  function AddTagToMemo(s: TagStore, memo: Id, tag: Id): (r: Step<(), TagStore>)
    requires WellFormedStore(s)
    ensures WellFormedStore(r.state) && r.state.tags == s.tags
    ensures r.result.Ok? <==> tag in Ids(s.tags)
    ensures r.result.Err? ==> r == Step(Err(NotFound(tag)), s)
    ensures r.result.Ok? ==> r.state.pairs == s.pairs + {(memo, tag)}
    ensures r.result.Ok? ==> FindById(s.tags, tag).value in GetTagsForMemo(r.state, memo)
  {
    if FindById(s.tags, tag).None? then Step(Err(NotFound(tag)), s)
    else Step(Ok(()), s.(pairs := MemoTagRepository.Add(s.pairs, memo, tag)))
  }

  /** The position of the first listed id that is not a stored tag, in list
      order. */
  function FirstMissing(known: set<Id>, ids: seq<Id>): (r: Option<nat>)
    ensures r.None? <==> forall i | 0 <= i < |ids| :: ids[i] in known
    ensures r.Some? ==> && r.value < |ids| && ids[r.value] !in known
                        && forall j | 0 <= j < r.value :: ids[j] in known
  {
    if ids == [] then None
    else if ids[0] !in known then Some(0)
    else match FirstMissing(known, ids[1..])
      case None => None
      case Some(k) => Some(k + 1)
  }

  /** `setTagsForMemo`: checks the ids one by one and stops at the first that
      is not a stored tag, changing nothing; when all exist, the memo's tags
      become exactly the listed ones. The empty list is accepted and clears
      the memo's tags. */
  function SetTagsForMemo(s: TagStore, memo: Id, ids: seq<Id>): (r: Step<(), TagStore>)
    requires WellFormedStore(s)
    ensures WellFormedStore(r.state) && r.state.tags == s.tags
    ensures r.result.Ok? <==> forall i | 0 <= i < |ids| :: ids[i] in Ids(s.tags)
    ensures r.result.Err? ==> r.state == s
    ensures r.result.Err? ==> exists k | 0 <= k < |ids| ::
              && ids[k] !in Ids(s.tags)
              && (forall j | 0 <= j < k :: ids[j] in Ids(s.tags))
              && r.result.error == NotFound(ids[k])
    ensures r.result.Ok? ==> && MemoTagRepository.FindTagIdsByMemoId(r.state.pairs, memo) == set id | id in ids
                             && (forall x: MemoTagRepository.Pair | x.0 != memo :: x in r.state.pairs <==> x in s.pairs)
  {
    match FirstMissing(Ids(s.tags), ids)
    case Some(k) => Step(Err(NotFound(ids[k])), s)
    case None => Step(Ok(()), s.(pairs := MemoTagRepository.SetTagsForMemo(s.pairs, memo, ids)))
  }

  /** After a successful `setTagsForMemo` the memo shows exactly the tags
      whose ids were listed. */
  lemma SetTagsThenGet(s: TagStore, memo: Id, ids: seq<Id>)
    requires WellFormedStore(s)
    requires SetTagsForMemo(s, memo, ids).result.Ok?
    ensures forall tag :: tag in GetTagsForMemo(SetTagsForMemo(s, memo, ids).state, memo) <==>
              tag.id in ids && FindById(s.tags, tag.id) == Some(tag)
  {
    var after := SetTagsForMemo(s, memo, ids).state;
    forall tag ensures tag in GetTagsForMemo(after, memo) <==> tag.id in ids && FindById(s.tags, tag.id) == Some(tag) {
      assert (memo, tag.id) in after.pairs <==> tag.id in MemoTagRepository.FindTagIdsByMemoId(after.pairs, memo);
    }
  }

  /** `removeTagFromMemo`: unpairs without checking the memo or the tag. */
  function RemoveTagFromMemo(s: TagStore, memo: Id, tag: Id): (r: Step<(), TagStore>)
    requires WellFormedStore(s)
    ensures WellFormedStore(r.state) && r.result.Ok? && r.state.tags == s.tags
    ensures (memo, tag) !in r.state.pairs
    ensures forall x | x != (memo, tag) :: x in r.state.pairs <==> x in s.pairs
    ensures forall t | t in GetTagsForMemo(r.state, memo) :: t.id != tag
  {
    Step(Ok(()), s.(pairs := MemoTagRepository.Remove(s.pairs, memo, tag)))
  }

  /** `deleteTag`: removes the tag record. Its pairs stay in the pair table
      but no longer show up, since their tag cannot be found. */
  function DeleteTag(s: TagStore, id: Id): (r: Step<(), TagStore>)
    requires WellFormedStore(s)
    ensures WellFormedStore(r.state) && r.state.pairs == s.pairs
    ensures r.result.Ok? <==> id in Ids(s.tags)
    ensures r.result.Err? ==> r == Step(Err(NotFound(id)), s)
    ensures r.result.Ok? ==> && Ids(r.state.tags) == Ids(s.tags) - {id}
                             && (forall other | other != id :: FindById(r.state.tags, other) == FindById(s.tags, other))
    ensures forall memo, t | t in GetTagsForMemo(r.state, memo) :: r.result.Ok? ==> t.id != id
  {
    if FindById(s.tags, id).None? then Step(Err(NotFound(id)), s)
    else Step(Ok(()), s.(tags := Delete(s.tags, id)))
  }

  /** Deleting a tag leaves every memo with the tags it had, minus that
      one. */
  lemma DeleteTagHidesItsPairs(s: TagStore, id: Id, memo: Id)
    requires WellFormedStore(s) && id in Ids(s.tags)
    ensures GetTagsForMemo(DeleteTag(s, id).state, memo) == set t | t in GetTagsForMemo(s, memo) && t.id != id
    ensures MemoTagRepository.FindMemoIdsByTagId(DeleteTag(s, id).state.pairs, id)
              == MemoTagRepository.FindMemoIdsByTagId(s.pairs, id)
  {
  }

  /** `getOrCreateTag`: the tag stored under exactly this name, or a new one
      built from it and saved. The lookup uses the name as given while the
      saved name is trimmed. */
  function GetOrCreateTag(s: TagStore, name: string, id: Id, now: Instant): (r: Step<Tag, TagStore>)
    requires WellFormedStore(s)
    ensures WellFormedStore(r.state) && r.state.pairs == s.pairs
    ensures r.result.Err? ==> r.state == s && !r.result.error.TagAlreadyExists?
    ensures name in Names(s.tags) ==> r == Step(Ok(FindByName(s.tags, name).value), s)
    ensures name !in Names(s.tags) ==> r == CreateTag(s, name, id, now)
  {
    match FindByName(s.tags, name)
    case Some(tag) => Step(Ok(tag), s)
    case None =>
      match Tags.Create(name, id, now)
      case Err(e) => Step(Err(e), s)
      case Ok(tag) =>
        var saved := Save(s.tags, tag);
        Step(saved.result, s.(tags := saved.state))
  }

  /** With a name that is already trimmed, asking twice gives the same tag
      (the id is fresh, as a random UUID is). */
  lemma GetOrCreateTwiceTrimmed(s: TagStore, name: string, id: Id, now: Instant, id2: Id, now2: Instant)
    requires WellFormedStore(s) && id !in Ids(s.tags)
    requires name == Trim(Kotlin, name)
    requires GetOrCreateTag(s, name, id, now).result.Ok?
    ensures var first := GetOrCreateTag(s, name, id, now);
            GetOrCreateTag(first.state, name, id2, now2) == first
  {
    var first := GetOrCreateTag(s, name, id, now);
    if name !in Names(s.tags) {
      var tag := first.result.value;
      assert FindById(first.state.tags, id) == Some(tag);
      var i :| 0 <= i < |first.state.tags| && first.state.tags[i] == FromDomain(tag);
      assert FindByName(first.state.tags, name) == Some(ToDomain(first.state.tags[i]).value);
    }
  }

  /** With a padded name the second request fails: it looks the padded name
      up, misses the trimmed one saved by the first request, and collides
      with it in the unique name column. */
  lemma GetOrCreateTwicePadded(s: TagStore, name: string, id: Id, now: Instant, id2: Id, now2: Instant)
    requires WellFormedStore(s) && id2 != id
    requires name != Trim(Kotlin, name) && name !in Names(s.tags)
    requires GetOrCreateTag(s, name, id, now).result.Ok?
    ensures GetOrCreateTag(GetOrCreateTag(s, name, id, now).state, name, id2, now2).result
              == Err(DataIntegrityViolation)
  {
    var first := GetOrCreateTag(s, name, id, now);
    var t1 := first.state.tags;
    assert name !in Names(t1);
    var holder := FindByName(t1, Trim(Kotlin, name)).value;
    var i :| 0 <= i < |t1| && t1[i] == FromDomain(holder);
    assert t1[i].name == Trim(Kotlin, name) && t1[i].id != id2;
  }

  /** The lookup that evidently was meant: by the trimmed name, which is the
      name a created tag is stored under. */
  function GetOrCreateTagTrimmed(s: TagStore, name: string, id: Id, now: Instant): (r: Step<Tag, TagStore>)
    requires WellFormedStore(s)
    ensures WellFormedStore(r.state) && r.state.pairs == s.pairs
    ensures r.result.Err? ==> r.state == s && !r.result.error.TagAlreadyExists?
    ensures Trim(Kotlin, name) in Names(s.tags) ==>
              r == Step(Ok(FindByName(s.tags, Trim(Kotlin, name)).value), s)
    ensures r.result.Ok? ==> r.result.value.name == Trim(Kotlin, name)
  {
    var trimmed := Trim(Kotlin, name);
    match FindByName(s.tags, trimmed)
    case Some(tag) => Step(Ok(tag), s)
    case None =>
      match Tags.Create(name, id, now)
      case Err(e) => Step(Err(e), s)
      case Ok(tag) =>
        var saved := Save(s.tags, tag);
        Step(saved.result, s.(tags := saved.state))
  }

  /** With the trimmed lookup, asking twice gives the same tag for every
      name, padded or not. */
  lemma GetOrCreateTrimmedTwice(s: TagStore, name: string, id: Id, now: Instant, id2: Id, now2: Instant)
    requires WellFormedStore(s) && id !in Ids(s.tags)
    requires GetOrCreateTagTrimmed(s, name, id, now).result.Ok?
    ensures var first := GetOrCreateTagTrimmed(s, name, id, now);
            GetOrCreateTagTrimmed(first.state, name, id2, now2) == first
  {
    var first := GetOrCreateTagTrimmed(s, name, id, now);
    var trimmed := Trim(Kotlin, name);
    if trimmed !in Names(s.tags) {
      var tag := first.result.value;
      assert FindById(first.state.tags, id) == Some(tag);
      var i :| 0 <= i < |first.state.tags| && first.state.tags[i] == FromDomain(tag);
      assert FindByName(first.state.tags, trimmed) == Some(ToDomain(first.state.tags[i]).value);
    }
  }
}

/** The `QuickMemo` domain value: a captured note whose content is validated
    by the constructor, and its lifecycle transitions. Every transition is a
    `copy`, which re-runs the constructor's validation. The clock and the
    UUID generator are parameters (`now`, `id`). */
module QuickMemos {
  import opened Wrappers
  import opened Text
  import opened Errors
  import opened Primitives

  const MaxContentLength: nat := 1000
  const BlankContentMessage: string := "Content cannot be blank"
  const ContentTooLongMessage: string := "Content cannot exceed 1000 characters"

  datatype QuickMemo = QuickMemo(
    id: Id,
    content: string,
    createdAt: Instant,
    updatedAt: Instant,
    deletedAt: Option<Instant>)

  /** What the constructor requires of the content. */
  predicate ValidContent(content: string)
  {
    !IsBlank(Kotlin, content) && |content| <= MaxContentLength
  }

  /** Every `QuickMemo` the program can hold satisfies this. */
  predicate Valid(m: QuickMemo)
  {
    ValidContent(m.content)
  }

  /** The primary constructor with its `init` checks: blank content is
      rejected first, then content longer than the limit. */
  function New(id: Id, content: string, createdAt: Instant, updatedAt: Instant, deletedAt: Option<Instant>)
    : (r: Result<QuickMemo, Error>)
    ensures r.Ok? <==> ValidContent(content)
    ensures r.Ok? ==> Valid(r.value) && r.value == QuickMemo(id, content, createdAt, updatedAt, deletedAt)
    ensures IsBlank(Kotlin, content) ==> r == Err(IllegalArgument(Some(BlankContentMessage)))
    ensures !IsBlank(Kotlin, content) && |content| > MaxContentLength ==>
              r == Err(IllegalArgument(Some(ContentTooLongMessage)))
  {
    if IsBlank(Kotlin, content) then Err(IllegalArgument(Some(BlankContentMessage)))
    else if |content| > MaxContentLength then Err(IllegalArgument(Some(ContentTooLongMessage)))
    else Ok(QuickMemo(id, content, createdAt, updatedAt, deletedAt))
  }

  /** `QuickMemo.create`: a fresh, active memo holding the trimmed content.
      The trimmed text is what gets validated, so whitespace-only input is
      blank and surrounding whitespace does not count towards the limit. */
  function Create(content: string, id: Id, now: Instant): (r: Result<QuickMemo, Error>)
    ensures r.Ok? <==> !IsBlank(Kotlin, content) && |Trim(Kotlin, content)| <= MaxContentLength
    ensures IsBlank(Kotlin, content) ==> r == Err(IllegalArgument(Some(BlankContentMessage)))
    ensures !IsBlank(Kotlin, content) && |Trim(Kotlin, content)| > MaxContentLength ==>
              r == Err(IllegalArgument(Some(ContentTooLongMessage)))
    ensures r.Ok? ==> && Valid(r.value)
                      && r.value.id == id
                      && r.value.content == Trim(Kotlin, content)
                      && r.value.createdAt == now && r.value.updatedAt == now
                      && r.value.deletedAt == None
  {
    New(id, Trim(Kotlin, content), now, now, None)
  }

  predicate IsDeleted(m: QuickMemo)
  {
    m.deletedAt != None
  }

  /** `updateContent`: a copy with the trimmed new content and `updatedAt`
      advanced to `now`; the identity, creation time and trash state stay. */
  function UpdateContent(m: QuickMemo, newContent: string, now: Instant): (r: Result<QuickMemo, Error>)
    ensures r.Ok? <==> !IsBlank(Kotlin, newContent) && |Trim(Kotlin, newContent)| <= MaxContentLength
    ensures IsBlank(Kotlin, newContent) ==> r == Err(IllegalArgument(Some(BlankContentMessage)))
    ensures !IsBlank(Kotlin, newContent) && |Trim(Kotlin, newContent)| > MaxContentLength ==>
              r == Err(IllegalArgument(Some(ContentTooLongMessage)))
    ensures r.Ok? ==> && Valid(r.value)
                      && r.value.id == m.id
                      && r.value.createdAt == m.createdAt
                      && r.value.deletedAt == m.deletedAt
                      && r.value.content == Trim(Kotlin, newContent)
                      && r.value.updatedAt == now
  {
    New(m.id, Trim(Kotlin, newContent), m.createdAt, now, m.deletedAt)
  }

  /** `softDelete`: moves the memo to the trash at `now`, nothing else
      changes. */
  function SoftDelete(m: QuickMemo, now: Instant): (r: QuickMemo)
    requires Valid(m)
    ensures Valid(r) && IsDeleted(r)
    ensures r.deletedAt == Some(now)
    ensures r.(deletedAt := m.deletedAt) == m
  {
    New(m.id, m.content, m.createdAt, m.updatedAt, Some(now)).value
  }

  /** `restore`: takes the memo out of the trash, nothing else changes. */
  function Restore(m: QuickMemo): (r: QuickMemo)
    requires Valid(m)
    ensures Valid(r) && !IsDeleted(r)
    ensures r.(deletedAt := m.deletedAt) == m
  {
    New(m.id, m.content, m.createdAt, m.updatedAt, None).value
  }

  /** Restoring a memo that was just trashed gives back the active memo. */
  lemma RestoreUndoesSoftDelete(m: QuickMemo, now: Instant)
    requires Valid(m) && !IsDeleted(m)
    ensures Restore(SoftDelete(m, now)) == m
  {
  }

  /** The limit is inclusive: 1000 characters are accepted, 1001 are not. */
  lemma CreateLimitIsInclusive(id: Id, now: Instant)
    ensures Create(seq(1000, _ => 'a'), id, now).Ok?
    ensures Create(seq(1001, _ => 'a'), id, now) == Err(IllegalArgument(Some(ContentTooLongMessage)))
  {
    var s, t := seq(1000, _ => 'a'), seq(1001, _ => 'a');
    assert !IsSpace(Kotlin, s[0]) && !IsSpace(Kotlin, s[|s| - 1]);
    TrimmedIsFixed(Kotlin, s);
    assert !IsSpace(Kotlin, t[0]) && !IsSpace(Kotlin, t[|t| - 1]);
    TrimmedIsFixed(Kotlin, t);
  }

  /** A boundary example, for one input: whitespace around the text is not
      counted, so 1000 characters padded with spaces are accepted. */
  lemma CreateCountsTrimmedLength(id: Id, now: Instant)
    ensures Create("  " + seq(1000, _ => 'a') + "  ", id, now).Ok?
  {
    var s := seq(1000, _ => 'a');
    var padded := "  " + s + "  ";
    assert !IsBlank(Kotlin, padded) by { assert padded[2] == 'a'; }
    assert Lead(Kotlin, padded) == 2 by { assert padded[2] == 'a'; }
    assert |Trim(Kotlin, padded)| <= 1000;
  }

  /** Editing applies the same content rule as creating: the edit succeeds
      exactly when a memo created from the new text would, and stores the
      same text. */
  lemma UpdateAgreesWithCreate(m: QuickMemo, newContent: string, now: Instant)
    ensures UpdateContent(m, newContent, now).Ok? <==> Create(newContent, m.id, now).Ok?
    ensures UpdateContent(m, newContent, now).Ok? ==>
              UpdateContent(m, newContent, now).value.content == Create(newContent, m.id, now).value.content
  {
  }

  /** Saving a memo's own text again changes only `updatedAt`. */
  lemma UpdateWithOwnContent(m: QuickMemo, now: Instant)
    requires Valid(m)
    requires m.content == Trim(Kotlin, m.content)
    ensures UpdateContent(m, m.content, now) == Ok(m.(updatedAt := now))
  {
  }
}

/** The `Tag` domain value: a named label whose name is validated by the
    constructor. */
module Tags {
  import opened Wrappers
  import opened Text
  import opened Errors
  import opened Primitives

  const MaxNameLength: nat := 100
  const BlankNameMessage: string := "Tag name cannot be blank"
  const NameTooLongMessage: string := "Tag name cannot exceed 100 characters"

  datatype Tag = Tag(id: Id, name: string, createdAt: Instant)

  /** What the constructor requires of the name. */
  predicate ValidName(name: string)
  {
    !IsBlank(Kotlin, name) && |name| <= MaxNameLength
  }

  /** Every `Tag` the program can hold satisfies this. */
  predicate Valid(t: Tag)
  {
    ValidName(t.name)
  }

  /** The primary constructor with its `init` checks: a blank name is
      rejected first, then a name longer than the limit. */
  function New(id: Id, name: string, createdAt: Instant): (r: Result<Tag, Error>)
    ensures r.Ok? <==> ValidName(name)
    ensures r.Ok? ==> Valid(r.value) && r.value == Tag(id, name, createdAt)
    ensures IsBlank(Kotlin, name) ==> r == Err(IllegalArgument(Some(BlankNameMessage)))
    ensures !IsBlank(Kotlin, name) && |name| > MaxNameLength ==>
              r == Err(IllegalArgument(Some(NameTooLongMessage)))
  {
    if IsBlank(Kotlin, name) then Err(IllegalArgument(Some(BlankNameMessage)))
    else if |name| > MaxNameLength then Err(IllegalArgument(Some(NameTooLongMessage)))
    else Ok(Tag(id, name, createdAt))
  }

  /** `Tag.create`: a tag with the trimmed name, the supplied fresh id and
      `createdAt = now`. */
  function Create(name: string, id: Id, now: Instant): (r: Result<Tag, Error>)
    ensures r.Ok? <==> !IsBlank(Kotlin, name) && |Trim(Kotlin, name)| <= MaxNameLength
    ensures IsBlank(Kotlin, name) ==> r == Err(IllegalArgument(Some(BlankNameMessage)))
    ensures !IsBlank(Kotlin, name) && |Trim(Kotlin, name)| > MaxNameLength ==>
              r == Err(IllegalArgument(Some(NameTooLongMessage)))
    ensures r.Ok? ==> && Valid(r.value)
                      && r.value == Tag(id, Trim(Kotlin, name), now)
  {
    New(id, Trim(Kotlin, name), now)
  }

  /** Building a tag from a created tag's name gives the same tag: the
      stored name is already trimmed. */
  lemma CreateIsStable(name: string, id: Id, now: Instant)
    requires Create(name, id, now).Ok?
    ensures Create(Create(name, id, now).value.name, id, now) == Create(name, id, now)
  {
    TrimIdempotent(Kotlin, name);
  }
}

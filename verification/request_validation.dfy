/** The request bodies and path variables of the HTTP API, as they are bound
    and validated before a controller method runs: the bean-validation
    constraints of the request DTOs and the UUID parsing of ids. */
module Requests {
  import opened Wrappers
  import opened Primitives
  import opened Errors
  import opened Text
  import QuickMemos
  import Tags

  const ContentField: string := "content"
  const ContentRequiredMessage: string := "Content is required"
  const NameField: string := "name"
  const TagIdsField: string := "tagIds"
  const TagIdsEmptyMessage: string := "Tag IDs cannot be empty"

  /** The violations of one `@NotBlank` / `@Size(max)` pair on a string
      field, in declaration order. `@NotBlank` is Hibernate's: blank after
      Java's `trim()`. `@Size` counts the raw, untrimmed string. */
  function NotBlankAndSize(field: string, value: string, blankMessage: string,
                           max: nat, sizeMessage: string): (errs: seq<FieldError>)
    requires blankMessage != sizeMessage
    ensures errs == [] <==> !IsBlank(JavaTrim, value) && |value| <= max
    ensures FieldError(field, blankMessage) in errs <==> IsBlank(JavaTrim, value)
    ensures FieldError(field, sizeMessage) in errs <==> |value| > max
    ensures forall e | e in errs :: e.field == field
  {
    (if IsBlank(JavaTrim, value) then [FieldError(field, blankMessage)] else [])
    + (if |value| > max then [FieldError(field, sizeMessage)] else [])
  }

  /** `CreateQuickMemoRequest`: the content must be non-blank and at most
      1000 characters before any trimming. */
  function ValidateCreateQuickMemo(content: string): (r: Result<string, Error>)
    ensures r.Ok? <==> !IsBlank(JavaTrim, content) && |content| <= QuickMemos.MaxContentLength
    ensures r.Ok? ==> r.value == content
    ensures r.Err? ==> r.error.ArgumentNotValid? && r.error.fieldErrors != []
    ensures r.Err? ==> (FieldError(ContentField, ContentRequiredMessage) in r.error.fieldErrors
                        <==> IsBlank(JavaTrim, content))
  {
    var errs := NotBlankAndSize(ContentField, content, ContentRequiredMessage,
                                QuickMemos.MaxContentLength, QuickMemos.ContentTooLongMessage);
    if errs == [] then Ok(content) else Err(ArgumentNotValid(errs))
  }

  /** `UpdateQuickMemoRequest`, which the update endpoint validates with
      `@Valid`: its declaration is not part of this model, and it is taken to
      carry the same `@NotBlank` / `@Size(max = 1000)` pair as the create
      request, messages included. */
  function ValidateUpdateQuickMemo(content: string): (r: Result<string, Error>)
    ensures r.Ok? <==> !IsBlank(JavaTrim, content) && |content| <= QuickMemos.MaxContentLength
    ensures r.Ok? ==> r.value == content
    ensures r.Err? ==> r.error.ArgumentNotValid? && r.error.fieldErrors != []
                       && forall e | e in r.error.fieldErrors :: e.field == ContentField
  {
    var errs := NotBlankAndSize(ContentField, content, ContentRequiredMessage,
                                QuickMemos.MaxContentLength, QuickMemos.ContentTooLongMessage);
    if errs == [] then Ok(content) else Err(ArgumentNotValid(errs))
  }

  /** `CreateTagRequest`: the name must be non-blank and at most 100
      characters before any trimming. */
  function ValidateCreateTag(name: string): (r: Result<string, Error>)
    ensures r.Ok? <==> !IsBlank(JavaTrim, name) && |name| <= Tags.MaxNameLength
    ensures r.Ok? ==> r.value == name
    ensures r.Err? ==> r.error.ArgumentNotValid? && r.error.fieldErrors != []
  {
    var errs := NotBlankAndSize(NameField, name, Tags.BlankNameMessage,
                                Tags.MaxNameLength, Tags.NameTooLongMessage);
    if errs == [] then Ok(name) else Err(ArgumentNotValid(errs))
  }

  /** Everything Java's `trim()` strips is also Kotlin whitespace. */
  lemma JavaSpaceIsKotlinSpace(c: char)
    requires IsSpace(JavaTrim, c)
    ensures IsSpace(Kotlin, c) <==> c in "\t\n\U{000B}\U{000C}\r\U{001C}\U{001D}\U{001E}\U{001F} "
  {
  }

  /** Content that passed the request check can still be refused by the
      memo: only for being blank in Kotlin's sense, never for its length,
      because trimming only shortens it. */
  lemma ValidatedContentMeetsDomain(content: string, id: Id, now: Instant)
    requires ValidateCreateQuickMemo(content).Ok?
    ensures QuickMemos.Create(content, id, now).Ok? <==> !IsBlank(Kotlin, content)
    ensures IsBlank(Kotlin, content) ==>
              QuickMemos.Create(content, id, now) == Err(IllegalArgument(Some(QuickMemos.BlankContentMessage)))
  {
  }

  /** A boundary example, for one input: a no-break space passes `@NotBlank`
      and reaches the memo, which rejects it as blank. The all-inputs rule is
      `ValidatedContentMeetsDomain`. */
  lemma NoBreakSpacePassesRequestButNotDomain(id: Id, now: Instant)
    ensures ValidateCreateQuickMemo("\U{00A0}").Ok?
    ensures QuickMemos.Create("\U{00A0}", id, now) == Err(IllegalArgument(Some(QuickMemos.BlankContentMessage)))
  {
    assert !IsBlank(JavaTrim, "\U{00A0}") by { assert !IsSpace(JavaTrim, "\U{00A0}"[0]); }
  }

  /** A boundary example, for one input: the size check counts the padding
      the memo would trim, so 1000 chars with a space in front are refused by
      the request though the memo would accept them. */
  lemma SizeCountsPadding(id: Id, now: Instant)
    ensures ValidateCreateQuickMemo(" " + seq(1000, _ => 'a')).Err?
    ensures QuickMemos.Create(" " + seq(1000, _ => 'a'), id, now).Ok?
  {
    var s := " " + seq(1000, _ => 'a');
    assert s[1] == 'a';
    assert !IsBlank(JavaTrim, s);
    assert !IsBlank(Kotlin, s);
  }

  predicate IsHexDigit(c: char)
  {
    '0' <= c <= '9' || 'a' <= c <= 'f' || 'A' <= c <= 'F'
  }

  /** The canonical text of a UUID: 36 chars, dashes at 8, 13, 18 and 23,
      hex digits elsewhere, either case. */
  predicate IsUuidText(s: string)
  {
    && |s| == 36
    && (forall i | 0 <= i < 36 :: (i in {8, 13, 18, 23}) == (s[i] == '-'))
    && (forall i | 0 <= i < 36 && i !in {8, 13, 18, 23} :: IsHexDigit(s[i]))
  }

  /** The id a UUID text denotes, in the lower-case form `UUID.toString`
      prints. */
  function ParseUuid(s: string): (r: Option<Id>)
    ensures r.Some? <==> IsUuidText(s)
    ensures r.Some? ==> r.value == Lower(s) && IsUuidText(r.value)
  {
    if IsUuidText(s) then
      var l := Lower(s);
      assert forall i | 0 <= i < 36 :: l[i] == LowerChar(s[i]);
      Some(l)
    else None
  }

  /** Upper- and lower-case spellings of a UUID denote the same id. */
  lemma ParseUuidIgnoresCase(s: string)
    requires IsUuidText(s)
    ensures ParseUuid(Lower(s)) == ParseUuid(s)
  {
    var l := Lower(s);
    assert Lower(l) == l by {
      forall i | 0 <= i < |l| ensures Lower(l)[i] == l[i] {
        assert l[i] == LowerChar(s[i]);
      }
    }
  }

  /** A `{id}` path variable: anything that is not a UUID is a type
      mismatch. */
  function BindPathId(s: string): (r: Result<Id, Error>)
    ensures r.Ok? <==> IsUuidText(s)
    ensures r.Ok? ==> Some(r.value) == ParseUuid(s)
    ensures r.Err? ==> r.error == ArgumentTypeMismatch
  {
    match ParseUuid(s)
    case None => Err(ArgumentTypeMismatch)
    case Some(id) => Ok(id)
  }

  /** Reads each element as a UUID, failing at the first that is not one. */
  function ParseUuids(elements: seq<string>): (r: Option<seq<Id>>)
    ensures r.Some? <==> forall i | 0 <= i < |elements| :: IsUuidText(elements[i])
    ensures r.Some? ==> |r.value| == |elements|
                        && forall i | 0 <= i < |elements| :: Some(r.value[i]) == ParseUuid(elements[i])
  {
    if elements == [] then Some([])
    else
      match (ParseUuid(elements[0]), ParseUuids(elements[1..]))
      case (Some(h), Some(t)) => Some([h] + t)
      case _ => None
  }

  /** `SetTagsRequest`: the body is read first (an element that is not a
      UUID, a blank one included, makes the body unreadable), then the list
      must not be empty. */
  function BindSetTags(elements: seq<string>): (r: Result<seq<Id>, Error>)
    ensures r.Ok? <==> elements != [] && forall i | 0 <= i < |elements| :: IsUuidText(elements[i])
    ensures (exists i | 0 <= i < |elements| :: !IsUuidText(elements[i])) ==> r == Err(MessageNotReadable)
    ensures elements == [] ==> r == Err(ArgumentNotValid([FieldError(TagIdsField, TagIdsEmptyMessage)]))
    ensures r.Ok? ==> |r.value| == |elements|
                      && forall i | 0 <= i < |elements| :: Some(r.value[i]) == ParseUuid(elements[i])
  {
    match ParseUuids(elements)
    case None => Err(MessageNotReadable)
    case Some(ids) =>
      if ids == [] then Err(ArgumentNotValid([FieldError(TagIdsField, TagIdsEmptyMessage)]))
      else Ok(ids)
  }

  /** A blank element is not a UUID, so such a body is refused. */
  lemma BlankTagIdIsRefused(ok: string)
    requires IsUuidText(ok)
    ensures BindSetTags([ok, ""]) == Err(MessageNotReadable)
    ensures BindSetTags([ok, " "]) == Err(MessageNotReadable)
  {
    assert !IsUuidText([ok, ""][1]);
    assert !IsUuidText([ok, " "][1]);
  }
}

/** The quick-input page: the checks it makes before sending new content,
    what it sends, what the form shows afterwards, the character counter's
    thresholds and when the submit button is disabled. */
module QuickInputPage {
  import opened Wrappers
  import opened Text
  import QuickMemos
  import Requests

  const MaxLength: nat := 1000
  /** The counter turns yellow above this many characters. */
  const NearLimit: nat := 900

  const RequiredMessage: string := "Content is required"
  const TooLongMessage: string := "Content cannot exceed 1000 characters"
  const SavedMessage: string := "Memo saved!"
  const FailedMessage: string := "Failed to save memo"

  datatype Notice = Success(text: string) | Failure(text: string)

  /** The page's state: the text area, whether a request is in flight, and
      the notice above the form. */
  datatype Form = Form(content: string, saving: bool, notice: Option<Notice>)

  /** `handleSubmit` up to the request: the new form and, when the checks
      pass, the content sent to the server. */
  datatype Submission = Submission(form: Form, sent: Option<string>)

  function Submit(f: Form): (r: Submission)
    ensures r.sent.None? <==> IsBlank(JavaScript, f.content) || |f.content| > MaxLength
    ensures IsBlank(JavaScript, f.content) ==>
              r.form == f.(notice := Some(Failure(RequiredMessage)))
    ensures !IsBlank(JavaScript, f.content) && |f.content| > MaxLength ==>
              r.form == f.(notice := Some(Failure(TooLongMessage)))
    ensures r.sent.Some? ==> && r.sent.value == Trim(JavaScript, f.content)
                             && r.sent.value != []
                             && |r.sent.value| <= MaxLength
                             && r.form == f.(saving := true, notice := None)
  {
    if IsBlank(JavaScript, f.content) then
      Submission(f.(notice := Some(Failure(RequiredMessage))), None)
    else if |f.content| > MaxLength then
      Submission(f.(notice := Some(Failure(TooLongMessage))), None)
    else
      Submission(f.(saving := true, notice := None), Some(Trim(JavaScript, f.content)))
  }

  /** The form once the create request has answered. */
  function Complete(f: Form, succeeded: bool): (r: Form)
    ensures !r.saving
    ensures succeeded ==> r.content == [] && r.notice == Some(Success(SavedMessage))
    ensures !succeeded ==> r.content == f.content && r.notice == Some(Failure(FailedMessage))
  {
    if succeeded then Form([], false, Some(Success(SavedMessage)))
    else f.(saving := false, notice := Some(Failure(FailedMessage)))
  }

  /** Colour of the character counter. */
  datatype CounterColour = Grey | Yellow | Red

  predicate IsNearLimit(count: nat)
  {
    count > NearLimit
  }

  predicate IsAtLimit(count: nat)
  {
    count >= MaxLength
  }

  /** The counter under the text area: red at the limit, yellow near it. */
  function Counter(content: string): (c: CounterColour)
    ensures c == Red <==> |content| >= 1000
    ensures c == Yellow <==> 900 < |content| < 1000
    ensures c == Grey <==> |content| <= 900
  {
    if IsAtLimit(|content|) then Red
    else if IsNearLimit(|content|) then Yellow
    else Grey
  }

  /** The submit button's `disabled`. */
  predicate SubmitDisabled(f: Form)
  {
    f.saving || IsBlank(JavaScript, f.content)
  }

  /** The button is disabled exactly when saving or when a submit would be
      refused as empty; it stays enabled for content that is too long, which
      the submit then refuses. */
  lemma DisabledMeansSaveOrEmpty(f: Form)
    ensures SubmitDisabled(f) <==>
              f.saving || Submit(f).form.notice == Some(Failure(RequiredMessage))
    ensures !SubmitDisabled(f) && |f.content| > MaxLength ==>
              Submit(f).form.notice == Some(Failure(TooLongMessage))
  {
  }

  /** The counter is red exactly from the length at which the page still
      sends: 1000 characters are red yet accepted. */
  lemma RedCounterStillSends(content: string)
    requires !IsBlank(JavaScript, content) && |content| == MaxLength
    ensures Counter(content) == Red
    ensures Submit(Form(content, false, None)).sent.Some?
  {
  }

  /** A successful round leaves an empty form with the saved notice. */
  lemma SubmitThenSucceed(f: Form)
    requires Submit(f).sent.Some?
    ensures Complete(Submit(f).form, true) == Form([], false, Some(Success(SavedMessage)))
  {
  }

  /** What the page sends fits the request's size limit, so the server
      refuses it only for being blank in Java's sense. */
  lemma SentContentMeetsRequestSize(f: Form)
    requires Submit(f).sent.Some?
    ensures Requests.ValidateCreateQuickMemo(Submit(f).sent.value).Ok? <==>
              !IsBlank(JavaTrim, Submit(f).sent.value)
  {
  }

  /** A boundary example, for one input: a control character is not
      JavaScript whitespace, so the page sends it, but `@NotBlank` trims it
      away and the server answers 400. */
  lemma ControlCharPassesPageButNotServer()
    ensures Submit(Form("\U{0001}", false, None)).sent == Some("\U{0001}")
    ensures Requests.ValidateCreateQuickMemo("\U{0001}").Err?
  {
    assert !IsSpace(JavaScript, "\U{0001}"[0]);
    TrimmedIsFixed(JavaScript, "\U{0001}");
  }

  /** A boundary example, for one input. A no-break space between two file
      separators is blank to neither the page (which does not trim the
      separators) nor `@NotBlank` (which trims them but keeps the no-break
      space), yet Kotlin's `isBlank` sees only whitespace: the request is
      accepted and the memo constructor refuses it. */
  lemma MixedSpacesReachTheMemo(id: string, now: int)
    ensures Submit(Form("\U{001C}\U{00A0}\U{001C}", false, None)).sent == Some("\U{001C}\U{00A0}\U{001C}")
    ensures Requests.ValidateCreateQuickMemo("\U{001C}\U{00A0}\U{001C}").Ok?
    ensures QuickMemos.Create("\U{001C}\U{00A0}\U{001C}", id, now).Err?
  {
    var s := "\U{001C}\U{00A0}\U{001C}";
    assert !IsBlank(JavaScript, s) by { assert !IsSpace(JavaScript, s[0]); }
    assert !IsBlank(JavaTrim, s) by { assert !IsSpace(JavaTrim, s[1]); }
    assert IsBlank(Kotlin, s) by {
      assert IsSpace(Kotlin, s[0]) && IsSpace(Kotlin, s[1]) && IsSpace(Kotlin, s[2]);
    }
    TrimmedIsFixed(JavaScript, s);
    Requests.ValidatedContentMeetsDomain(s, id, now);
  }
}

/** `GlobalExceptionHandler`: how each error kind becomes an HTTP error
    response. Kinds without a dedicated handler fall through to the generic
    one and become a 500. */
module ExceptionHandler {
  import opened Wrappers
  import opened Errors
  import opened Text

  datatype ErrorResponse = ErrorResponse(status: nat, error: string, message: string)

  const BadRequest: nat := 400
  const NotFoundStatus: nat := 404
  const InternalServerError: nat := 500

  /** One violation as `field: message`. */
  function Render(e: FieldError): string
  {
    e.field + ": " + e.message
  }

  /** `joinToString(", ")` of the rendered violations. */
  function Join(es: seq<FieldError>): (s: string)
    ensures es == [] <==> s == []
    ensures |es| == 1 ==> s == Render(es[0])
  {
    if es == [] then ""
    else if |es| == 1 then Render(es[0])
    else Render(es[0]) + ", " + Join(es[1..])
  }

  /** Every violation appears, rendered, in the joined message. */
  lemma {:induction false} JoinMentionsEach(es: seq<FieldError>, i: nat)
    requires i < |es|
    ensures Contains(Join(es), Render(es[i]))
  {
    if |es| == 1 {
      ContainsPrefix(Render(es[0]), []);
      assert Render(es[0]) + [] == Join(es);
    } else {
      var prefix := Render(es[0]) + ", ";
      assert Join(es) == prefix + Join(es[1..]);
      if i == 0 {
        ContainsPrefix(Render(es[0]), ", " + Join(es[1..]));
        assert Render(es[0]) + (", " + Join(es[1..])) == Join(es);
      } else {
        JoinMentionsEach(es[1..], i - 1);
        assert es[1..][i - 1] == es[i];
        ContainsInSuffix(prefix, Join(es[1..]), Render(es[i]));
      }
    }
  }

  /** A string contains its own prefix. */
  lemma ContainsPrefix(a: string, b: string)
    ensures Contains(a + b, a)
  {
    assert (a + b)[0 .. |a|] == a;
    assert OccursAt(a + b, a, 0);
  }

  /** What a string contains, it still contains behind a prefix. */
  lemma ContainsInSuffix(prefix: string, rest: string, needle: string)
    requires Contains(rest, needle)
    ensures Contains(prefix + rest, needle)
  {
    var k :| 0 <= k <= |rest| - |needle| && OccursAt(rest, needle, k);
    assert (prefix + rest)[|prefix| + k .. |prefix| + k + |needle|] == rest[k .. k + |needle|];
    assert OccursAt(prefix + rest, needle, |prefix| + k);
  }

  /** Whether the error kind has a handler of its own. */
  predicate IsHandled(e: Error)
  {
    !(e.TagNotFound? || e.TagAlreadyExists? || e.DataIntegrityViolation?)
  }

  /** The response for an error. */
  function Handle(e: Error): (r: ErrorResponse)
    ensures r.status == InternalServerError <==> !IsHandled(e)
    ensures r.status == NotFoundStatus <==> e.QuickMemoNotFound?
    ensures r.status == BadRequest <==> (e.ArgumentNotValid? || e.MessageNotReadable?
                                         || e.ArgumentTypeMismatch? || e.IllegalArgument?)
    ensures !IsHandled(e) ==> r == ErrorResponse(500, "Internal Server Error", "An unexpected error occurred")
    ensures e.QuickMemoNotFound? ==> && r.error == "Not Found"
                                     && r.message == (if e.message.Some? then e.message.value else "Resource not found")
    ensures e.IllegalArgument? ==> && r.error == "Bad Request"
                                   && r.message == (if e.message.Some? then e.message.value else "Invalid request")
    ensures e.MessageNotReadable? ==> r == ErrorResponse(400, "Bad Request", "Malformed JSON request")
    ensures e.ArgumentTypeMismatch? ==> r == ErrorResponse(400, "Bad Request", "Invalid parameter type")
    ensures e.ArgumentNotValid? ==> && r.error == "Validation Error"
                                    && r.message == Join(e.fieldErrors)
                                    && forall i | 0 <= i < |e.fieldErrors| :: Contains(r.message, Render(e.fieldErrors[i]))
  {
    match e
    case QuickMemoNotFound(m) =>
      ErrorResponse(NotFoundStatus, "Not Found", match m case Some(t) => t case None => "Resource not found")
    case ArgumentNotValid(fes) =>
      forall i | 0 <= i < |fes| ensures Contains(Join(fes), Render(fes[i])) {
        JoinMentionsEach(fes, i);
      }
      ErrorResponse(BadRequest, "Validation Error", Join(fes))
    case MessageNotReadable =>
      ErrorResponse(BadRequest, "Bad Request", "Malformed JSON request")
    case ArgumentTypeMismatch =>
      ErrorResponse(BadRequest, "Bad Request", "Invalid parameter type")
    case IllegalArgument(m) =>
      ErrorResponse(BadRequest, "Bad Request", match m case Some(t) => t case None => "Invalid request")
    case _ =>
      ErrorResponse(InternalServerError, "Internal Server Error", "An unexpected error occurred")
  }

  /** A client can tell the status from the error text alone: responses with
      the same error text have the same status, and the text says which
      handler answered. */
  lemma ErrorTextDeterminesStatus(e1: Error, e2: Error)
    ensures Handle(e1).error == Handle(e2).error ==> Handle(e1).status == Handle(e2).status
    ensures Handle(e1).error == "Validation Error" <==> e1.ArgumentNotValid?
    ensures Handle(e1).error == "Not Found" <==> e1.QuickMemoNotFound?
  {
  }

  /** The generic handler's response. */
  const Unexpected: ErrorResponse := ErrorResponse(InternalServerError, "Internal Server Error", "An unexpected error occurred")

  /** The handler as the code is written: its not-found handler is declared
      for a `QuickMemoNotFoundException` of another package than the one the
      service throws, so the service's not-found reaches the generic
      handler. Every other kind is answered as by `Handle`. */
  function HandleAsWritten(e: Error): (r: ErrorResponse)
    ensures e.QuickMemoNotFound? ==> r == Unexpected
    ensures !e.QuickMemoNotFound? ==> r == Handle(e)
    ensures r.status != NotFoundStatus
  {
    if e.QuickMemoNotFound? then Unexpected else Handle(e)
  }

  /** The one-violation case reads `field: message` exactly. */
  lemma SingleViolationMessage(f: FieldError)
    ensures Handle(ArgumentNotValid([f])) == ErrorResponse(400, "Validation Error", f.field + ": " + f.message)
  {
  }

  /** A tag error gives no hint of its cause: a missing tag, a duplicate name
      and a unique-constraint violation all read the same. */
  lemma TagErrorsAreIndistinguishable(id: string, name: string)
    ensures Handle(TagNotFound("Tag not found: " + id)) == Handle(TagAlreadyExists("Tag already exists: " + name))
    ensures Handle(TagAlreadyExists("Tag already exists: " + name)) == Handle(DataIntegrityViolation)
  {
  }
}

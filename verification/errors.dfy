/** The exceptions the backend throws, as one tagged error kind, and the
    shape of a state-changing service call. */
module Errors {
  import opened Wrappers

  /** One bean-validation violation: the offending field and its message. */
  datatype FieldError = FieldError(field: string, message: string)

  datatype Error =
      /** A failed `require` in a domain constructor (`IllegalArgumentException`). */
    | IllegalArgument(message: Option<string>)
      /** `QuickMemoNotFoundException`. */
    | QuickMemoNotFound(message: Option<string>)
      /** `TagNotFoundException`. */
    | TagNotFound(reason: string)
      /** `TagAlreadyExistsException`. */
    | TagAlreadyExists(reason: string)
      /** The database refused a write: the unique constraint on the tag name. */
    | DataIntegrityViolation
      /** `MethodArgumentNotValidException`: a request body failed bean validation. */
    | ArgumentNotValid(fieldErrors: seq<FieldError>)
      /** `HttpMessageNotReadableException`: the body could not be read as the request DTO. */
    | MessageNotReadable
      /** `MethodArgumentTypeMismatchException`: a path variable is not a UUID. */
    | ArgumentTypeMismatch

  /** The result of an operation together with the store it leaves behind. */
  datatype Step<+T, +S> = Step(result: Result<T, Error>, state: S)
}

/** The backend's error middleware, `errorHandler`: it turns any failure raised while handling a
    request into an HTTP status and a JSON body. An `ApiError` is reported as it is; anything
    else becomes a generic 500. The JSON body is a record whose `errors` field is absent
    (`None`) when the JSON object has no such key. */
module ErrorMiddleware {

  datatype Option<T> = None | Some(value: T)

  /** A failure: an `ApiError` with its status code, message and list of error details (of
      whatever type `E` the application uses), or any other thrown value, of which only the
      stack trace is kept. */
  datatype Failure<E> = ApiError(statusCode: int, message: string, errors: E) | OtherError(stack: string)

  datatype Body<E> = Body(success: bool, message: string, errors: Option<E>)

  datatype Response<E> = Response(status: int, body: Body<E>)

  const ServerErrorStatus: int := 500
  const ServerErrorMessage: string := "Server Error"

  /** `errorHandler(err, req, res, next)`: the status and body it sends. */
  function ErrorHandler<E>(err: Failure<E>): (res: Response<E>)
    ensures !res.body.success
    ensures err.ApiError? ==> res.status == err.statusCode
    ensures err.ApiError? ==> res.body.message == err.message && res.body.errors == Some(err.errors)
    ensures err.OtherError? ==> res.status == ServerErrorStatus && res.body.message == ServerErrorMessage
    ensures res.body.errors.Some? <==> err.ApiError?
  {
    match err
    case ApiError(statusCode, message, errors) =>
      Response(statusCode, Body(false, message, Some(errors)))
    case OtherError(_) =>
      Response(ServerErrorStatus, Body(false, ServerErrorMessage, None))
  }

  /** The generic response gives nothing of the failure away: any two failures that are not
      `ApiError`s get the same response. */
  lemma GenericResponseHidesDetail<E>(a: Failure<E>, b: Failure<E>)
    requires a.OtherError? && b.OtherError?
    ensures ErrorHandler(a) == ErrorHandler(b)
  {
  }

  /** An `ApiError` passes through unchanged: its response determines it. */
  lemma ApiErrorPassesThrough<E>(a: Failure<E>, b: Failure<E>)
    requires a.ApiError? && b.ApiError?
    ensures ErrorHandler(a) == ErrorHandler(b) <==> a == b
  {
  }

  /** The two example failures: a 404 `ApiError` without details, and an unexpected error. */
  lemma ExampleResponses(stack: string)
    ensures ErrorHandler<seq<string>>(ApiError(404, "Not found", [])) == Response(404, Body(false, "Not found", Some([])))
    ensures ErrorHandler<seq<string>>(OtherError(stack)) == Response(500, Body(false, "Server Error", None))
  {
  }
}

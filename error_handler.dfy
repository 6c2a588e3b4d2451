/** The central error handler: every error reaching it becomes a status code
    and a `{success: false, error}` body. */
module ErrorHandling {
  import opened Errors

  const InternalError: string := "Internal server error"

  /** What was thrown: an `Error` (an `AppError` or a plain one), or some
      value that is not an `Error` at all. */
  datatype Thrown = Raised(error: Error) | NonError

  datatype Body = Body(success: bool, error: string)
  datatype Response = Response(status: nat, body: Body)

  /** `handle`: an `AppError` keeps its status and message; a plain `Error`
      is a 500 that still shows its own message; anything else is a 500 with
      the generic message. */
  function Handle(thrown: Thrown): (r: Response)
    ensures !r.body.success
    ensures thrown.Raised? && thrown.error.IsAppError() ==>
              r.status == thrown.error.StatusCode() && r.body.error == thrown.error.message
    ensures thrown.Raised? && thrown.error.PlainError? ==> r == Response(500, Body(false, thrown.error.message))
    ensures thrown.NonError? ==> r == Response(500, Body(false, InternalError))
  {
    var (status, message) :=
      match thrown
      case Raised(e) => if e.IsAppError() then (e.StatusCode(), e.message) else (500, e.message)
      case NonError => (500, InternalError);
    Response(status, Body(false, message))
  }

  /** The errors the services and middleware throw are client errors
      (400, 401, 403, 404 or 429), and rate limiting is 429 (section 4 of
      RFC 6585). */
  lemma TypedErrorsAreClientErrors(e: Error)
    requires !e.AppError? && !e.PlainError?
    ensures 400 <= Handle(Raised(e)).status < 500
    ensures e.RateLimitError? ==> Handle(Raised(e)).status == 429
  {
  }
}

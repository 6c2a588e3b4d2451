/** The error classes the services and middleware throw. */
module Errors {

  datatype Error =
    | ValidationError(message: string)
    | AuthenticationError(message: string)
    | AuthorizationError(message: string)
    | NotFoundError(message: string)
    | RateLimitError(message: string)
    /** A bare `AppError` with an explicit status code. */
    | AppError(message: string, code: nat)
    /** A plain `Error`, which is not an `AppError`. */
    | PlainError(message: string)
  {
    predicate IsAppError() {
      !PlainError?
    }

    /** The HTTP status an `AppError` carries. */
    function StatusCode(): (code: nat)
      requires IsAppError()
      ensures ValidationError? ==> code == 400
      ensures AuthenticationError? ==> code == 401
      ensures AuthorizationError? ==> code == 403
      ensures NotFoundError? ==> code == 404
      ensures RateLimitError? ==> code == 429
    {
      match this
      case ValidationError(_) => 400
      case AuthenticationError(_) => 401
      case AuthorizationError(_) => 403
      case NotFoundError(_) => 404
      case RateLimitError(_) => 429
      case AppError(_, c) => c
    }
  }
}

/** Option, Result and Outcome: the shapes in which the backend's nullable
    lookups, thrown errors and "call next()" decisions are modelled. */
module Wrappers {

  datatype Option<+T> = None | Some(value: T) {
    function GetOr(default: T): T {
      match this
      case Some(v) => v
      case None => default
    }
  }

  /** A value or the error the source would throw. */
  datatype Result<+R, +E> = Success(value: R) | Failure(error: E)

  /** A middleware's verdict: call `next()` once, or throw. */
  datatype Outcome<+E> = Next | Throw(error: E)
}

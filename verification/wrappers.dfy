/** Failure-carrying values shared by the endpoints: an optional value, a
    success-or-error result, and the HTTP error that FastAPI turns into a
    response status. */
module Wrappers {

  datatype Option<+T> = None | Some(value: T) {
    function GetOr(default: T): T {
      match this
      case Some(v) => v
      case None => default
    }
  }

  datatype Result<+R, +E> = Success(value: R) | Failure(error: E)

  /** An `HTTPException(status_code, detail)` raised by a route. */
  datatype HttpError = HttpError(status: int, detail: string)
}

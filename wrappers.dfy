/** Option and Result, used for Python's None and for error responses. */
module Wrappers {

  datatype Option<+T> = None | Some(value: T) {
    function GetOr(default: T): T {
      match this
      case Some(v) => v
      case None => default
    }
  }

  datatype Result<+T, +E> = Ok(value: T) | Err(error: E)

  /** The HTTP errors the API raises: 400, 404, 500 and 503. */
  datatype HttpError = BadRequest | NotFound | ServerError | Unavailable

  function Min(a: int, b: int): int { if a <= b then a else b }
  function Max(a: int, b: int): int { if a <= b then b else a }
}

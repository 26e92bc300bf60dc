/** Optional values and error-carrying results, standing in for Go's
    `(value, error)` pairs, Python's `None` and missing JSON keys. */
module Wrappers {

  datatype Option<+T> = None | Some(value: T) {
    function GetOr(default: T): T {
      match this
      case Some(v) => v
      case None => default
    }
  }

  datatype Result<+T, +E> = Ok(value: T) | Err(error: E)
}

/** Optional values and success/failure results, used for Python's `None`
    and for the error paths (HTTP 404, RuntimeError) of the backend. */
module Wrappers {

  datatype Option<+T> = None | Some(value: T) {

    /** The value, or `default` when absent (Python's `d.get(k, default)`). */
    function GetOr(default: T): T
    {
      match this
      case Some(v) => v
      case None => default
    }
  }

  datatype Result<+R, +E> = Success(value: R) | Failure(error: E)
}

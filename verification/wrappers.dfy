/** Optional values and fallible results, the two shapes the Go code expresses
    with nil values and `(value, error)` pairs. */
module Wrappers {

  /** A value that may be absent: a nullable column or a nil Go value. */
  datatype Option<+T> = None | Some(value: T) {

    /** The value, or `default` when absent (SQL's COALESCE). */
    function GetOr(default: T): T {
      match this
      case Some(v) => v
      case None => default
    }
  }

  /** Either a value or an error, as a Go function returning `(T, error)`. */
  datatype Result<+R, +E> = Success(value: R) | Failure(error: E)
}

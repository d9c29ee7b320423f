/** Option and Result, the two wrappers the model uses for Python's
    `dict.get(key, default)` and for operations that end in `sys.exit(1)`. */
module Wrappers {

  /** A possibly absent value: a record field that may be missing. */
  datatype Option<+T> = None | Some(value: T) {

    /** The value, or `default` when absent (`d.get(key, default)`). */
    function GetOr(default: T): T {
      match this
      case Some(v) => v
      case None => default
    }
  }

  /** The outcome of an operation that either produces a value or fails. */
  datatype Result<+R, +E> = Success(value: R) | Failure(error: E)
}

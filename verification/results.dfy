/** Failure-compatible wrappers shared by the whole model. */
module Results {

  /** A value that may be missing: Python's `Optional[T]` / `None`. */
  datatype Option<+T> = None | Some(value: T) {

    /** The wrapped value, or `default` when missing (Python's `dict.get(k, default)`). */
    function GetOr(default: T): T {
      match this
      case Some(v) => v
      case None => default
    }
  }

  /** Outcome of an operation that either succeeds with a value or fails with an error. */
  datatype Result<+T, +E> = Success(value: T) | Failure(error: E)
}

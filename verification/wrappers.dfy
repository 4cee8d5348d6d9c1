/** Failure-compatible wrappers used across the model: an optional value and
    a value-or-error result. */
module Wrappers {

  /** An optional value: `None` stands for Python's `None` (or a read that failed). */
  datatype Option<+T> = None | Some(value: T) {

    /** Returns the value inside `Some`, or `default` for `None`. */
    function GetOr(default: T): T {
      match this
      case Some(v) => v
      case None => default
    }
  }

  /** Either a computed value or the message of the exception the source raises. */
  datatype Result<+R, +E> = Success(value: R) | Failure(error: E)
}

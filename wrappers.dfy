/** Option, Result and Outcome datatypes shared by the other modules. */
module Wrappers {

  /** A value that may be absent: a missing JSON key, a `None` interpretation. */
  datatype Option<+T> = None | Some(value: T) {

    /** The value, or `default` when absent (Python's `x or default`, `d.get(k, default)`). */
    function GetOr(default: T): T {
      match this
      case Some(v) => v
      case None => default
    }
  }

  /** The outcome of an operation that either produces a value or raises an error. */
  datatype Result<+R, +E> = Success(value: R) | Failure(error: E)

  /** The outcome of an operation that produces no value but may raise an error. */
  datatype Outcome<+E> = Pass | Fail(error: E)
}

/** Failure-compatible wrappers: Python's `None` and caught exceptions. */
module Wrappers {

  /** A value that may be absent, as Python's `Optional[...]`. */
  datatype Option<+T> = None | Some(value: T)

  /** Either a value or the text of the exception that replaced it. */
  datatype Result<+T, +E> = Success(value: T) | Failure(error: E)
}

/** Failure-carrying values shared by the store, the worker and the app. */
module Wrappers {

  /** A value that may be absent: a missing row, a NULL column, a failed generation. */
  datatype Option<+T> = None | Some(value: T)

  /** The outcome of an operation that returns a value or raises. */
  datatype Result<+T, +E> = Success(value: T) | Failure(error: E)

  /** The outcome of an operation that returns nothing or raises. */
  datatype Outcome<+E> = Pass | Fail(error: E)
}

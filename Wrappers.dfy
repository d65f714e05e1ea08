/** Failure-compatible wrappers used for the source's null results and exceptions. */
module Wrappers {

  /** A value that may be absent: `null` or an empty `Optional` in the source. */
  datatype Option<+T> = None | Some(value: T)

  /** A computed value or the exception the source would raise instead. */
  datatype Result<+T, +E> = Success(value: T) | Failure(error: E)

  /** The outcome of an operation without a result: it returned, or it raised an exception. */
  datatype Outcome<+E> = Pass | Fail(error: E)
}

/** Option and Result: Java's `null` and thrown exceptions, as values. */
module Wrappers {

  /** A value that may be absent (a Java reference that may be `null`). */
  datatype Option<+T> = None | Some(value: T)

  /** The outcome of an operation that may throw: its value, or the error it threw. */
  datatype Result<+R, +E> = Success(value: R) | Failure(error: E)
}

/** Failure-compatible wrappers used in place of Java's null and of the
    RuntimeException that the service throws for an unknown identifier. */
module Wrappers {

  /** A value that may be absent: Java's `null` reference. */
  datatype Option<+T> = None | Some(value: T)

  /** The outcome of an operation that either yields a value or fails. */
  datatype Result<+T, +E> = Success(value: T) | Failure(error: E)
}

/** Optional values and results with an error value, used where the Java code
    returns null or throws. */
module Wrappers {

  /** A value that may be absent: Java's `null` for a missing map entry or header. */
  datatype Option<+T> = None | Some(value: T)

  /** The outcome of an operation that either returns a value or throws. */
  datatype Result<+T, +E> = Success(value: T) | Failure(error: E)
}

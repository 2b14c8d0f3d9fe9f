/** Failure-carrying values shared by the other modules. */
module Wrappers {

  /** A value that may be missing: an absent field, a failed parse, no match. */
  datatype Option<+T> = None | Some(value: T)

  /** The outcome of an operation that either returns a value or throws. */
  datatype Result<+T, +E> = Success(value: T) | Failure(error: E)
}

/** Failure-compatible wrappers shared by the other modules. */
module Wrappers {

  /** A value that may be missing: a failed lookup, an input that does not parse. */
  datatype Option<+T> = None | Some(value: T)

  /** A computation that either succeeds with a value or fails with an error. */
  datatype Result<+R, +E> = Success(value: R) | Failure(error: E)
}

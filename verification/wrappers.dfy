/** Failure-carrying return types used in place of the source's exceptions. */
module Wrappers {

  /** An optional value: an absent `:by` option, a missing record. */
  datatype Option<+T> = None | Some(value: T)

  /** A value, or the error that was raised instead of returning one. */
  datatype Result<+T, +E> = Success(value: T) | Failure(error: E)
}

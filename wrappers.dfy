/** Failure-carrying values used across the model. */
module Wrappers {

  /** An optional value: `None` stands for a null reference or an empty slot. */
  datatype Option<+T> = None | Some(value: T)

  /** The outcome of an operation that either yields a value or fails with an error. */
  datatype Result<+R, +E> = Success(value: R) | Failure(error: E)
}

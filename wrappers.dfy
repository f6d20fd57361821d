/** Failure-carrying result types used wherever the C++ engine throws. */
module Wrappers {

  datatype Option<+T> = None | Some(value: T)

  /** A computation that either yields a value or fails with an error. */
  datatype Result<+R, +E> = Ok(value: R) | Err(error: E)

  /** A computation that either passes or fails with an error (no value). */
  datatype Outcome<+E> = Pass | Fail(error: E)
}

/** Failure-carrying datatypes shared by every model in this project. */
module Wrappers {
  /** A value that may be missing: Python's `None`, Rust's `Option`. */
  datatype Option<+T> = None | Some(value: T)

  /** A returned value, or the error that was raised or returned instead. */
  datatype Result<+T, +E> = Ok(value: T) | Err(error: E)
}

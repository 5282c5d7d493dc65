/** Failure-carrying result types shared by the key loader and the frame codec. */
module Wrappers {

  datatype Option<+T> = None | Some(value: T)

  /** A value or an error, as a Rust `Result<T, E>`. */
  datatype Result<+T, +E> = Success(value: T) | Failure(error: E)

  /** An error or nothing, as a Rust `Result<(), E>`. */
  datatype Outcome<+E> = Pass | Fail(error: E)
}

/** Rust's `Option` and `Result`, shared by the rest of the model. */
module Wrappers {

  /** An optional value: Rust's `Option<T>`. */
  datatype Option<+T> = None | Some(value: T)

  /** A value or an error: Rust's `Result<T, E>` as used with `?` and `bail!`. */
  datatype Result<+T, +E> = Success(value: T) | Failure(error: E)
}

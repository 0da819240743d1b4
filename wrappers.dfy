/** Rust's `Option` and `Result`, as the two programs use them. */
module Wrappers {

  /** `Option<T>`: a value that may be absent. */
  datatype Option<+T> = None | Some(value: T)

  /** `Result<T, E>`: either a value or an error. */
  datatype Result<+T, +E> = Ok(value: T) | Err(error: E)
}

/** Optional values and error-carrying results, shared by the other modules. */
module Wrappers {

  /** Rust's `Option<T>`. */
  datatype Option<+T> = None | Some(value: T)

  /** Rust's `Result<T, E>` (`std::io::Result` when `E` is an I/O error). */
  datatype Result<+T, +E> = Ok(value: T) | Err(error: E)
}

/** Option and Result, the two failure-carrying types the Rust code returns. */
module Wrappers {

  datatype Option<+T> = None | Some(value: T)

  /** `core::result::Result<T, E>`. */
  datatype Result<+T, +E> = Ok(value: T) | Err(error: E)
}

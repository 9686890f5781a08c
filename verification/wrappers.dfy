/** Option and Result, the two failure-carrying shapes the model returns. */
module Wrappers {

  /** Rust's `Option<T>`. */
  datatype Option<T> = None | Some(value: T)

  /** A value or the reason there is none; stands for the source's panics. */
  datatype Result<T, E> = Ok(value: T) | Err(error: E)
}

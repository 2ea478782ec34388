/** Option and Result, the two Rust types the modelled code returns. */
module Wrappers {

  datatype Option<+T> = None | Some(value: T)

  datatype Result<+T, +E> = Ok(value: T) | Err(error: E)

  /** Rust's unit type `()`, the success value of calls that return nothing. */
  datatype Unit = Unit
}

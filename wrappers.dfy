/** Option and Result, for the source's `Option`s, panics, thrown errors and `?` returns. */
module Wrappers {
  datatype Option<+T> = None | Some(value: T)

  datatype Result<+T, +E> = Ok(value: T) | Err(error: E)
}

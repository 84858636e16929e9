/** Option and Result, the two failure-aware wrappers the rest of the model uses. */
module Wrappers {

  /** A value that may be absent; stands for the source's nil pointers. */
  datatype Option<+T> = None | Some(value: T)

  /** A computation that either produced a value or failed with an error. */
  datatype Result<+T, +E> = Ok(value: T) | Err(error: E)
}

/** Optional values and results with an error, as used throughout the model. */
module Wrappers {

  /** Python's `None` or a present value. */
  datatype Option<+T> = None | Some(value: T)

  /** The outcome of an operation that may raise an exception in the source. */
  datatype Result<+T, +E> = Ok(value: T) | Err(error: E)
}

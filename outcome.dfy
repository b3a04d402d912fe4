/** Optional values, and results carrying either a value or an error. */
module Outcome {

  datatype Option<+T> = None | Some(value: T)

  /** Either a value or the error that the Ruby code would raise. */
  datatype Result<+T, +E> = Ok(value: T) | Err(error: E)
}

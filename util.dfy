/** Optional values and results with an error, as the rest of the model uses them. */
module Util {
  datatype Option<+T> = None | Some(value: T)

  datatype Result<+T, +E> = Ok(value: T) | Err(error: E)
}

/** Optional values and results with an error, shared by the other modules. */
module Wrappers {

  /** `std::optional` / Python `None`: a value that may be absent. */
  datatype Option<+T> = None | Some(value: T)

  /** The value of an operation that either succeeds or raises. */
  datatype Result<+T, +E> = Ok(value: T) | Err(error: E)
}

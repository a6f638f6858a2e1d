/** Optional values and results with the Python exception they stand for. */
module Wrappers {

  datatype Option<T> = None | Some(value: T)

  /** The one Python exception the location rule can raise to its caller. */
  datatype PyError = IndexError

  datatype Result<T> = Ok(value: T) | Err(error: PyError)
}

/** Optional values and results with an error, for the source's `undefined` and its thrown errors. */
module Wrappers {

  /** A value that may be absent: `undefined` in the source. */
  datatype Option<+T> = None | Some(value: T)

  /** The outcome of an operation that either yields a value or throws an error. */
  datatype Result<+T, +E> = Ok(value: T) | Err(error: E)
}

/** Optional values and results with an error side, used by the plan selector. */
module Wrappers {

  /** A value that may be absent, as a key that may be missing from a record. */
  datatype Option<T> = None | Some(value: T)

  /** The outcome of an operation that either produces a value or fails. */
  datatype Result<T, E> = Ok(value: T) | Err(error: E)
}

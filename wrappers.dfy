/** Optional values and results with an error, as used by the event pipeline. */
module Wrappers {

  /** A value that may be absent, such as a JSON field that the record lacks. */
  datatype Option<+T> = None | Some(value: T)

  /** The outcome of an operation that can raise an uncaught error. */
  datatype Result<+T, +E> = Ok(value: T) | Err(error: E)
}

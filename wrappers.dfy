/** Option and Result, the two failure-carrying wrappers the catalogue uses. */
module Wrappers {

  /** A value that may be absent: the model of Python's `Optional[int]`. */
  datatype Option<T> = None | Some(value: T)

  /** The outcome of a request handler: a value, or the error it raises. */
  datatype Result<T, E> = Ok(value: T) | Err(error: E)
}

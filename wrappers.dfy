/** Option and Result, the two failure-carrying wrappers used throughout the model. */
module Wrappers {

  /** A value that may be absent (an optional JSON field, a row a query did not find). */
  datatype Option<T> = None | Some(value: T)

  /** The outcome of a request handler: a payload, or the error it answers with. */
  datatype Result<T, E> = Ok(value: T) | Err(error: E)
}

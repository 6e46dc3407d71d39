/** Option and Result values shared by the server controller and the calculator page. */
module Wrappers {

  /** A value that may be absent: a SQL NULL, an undefined request field, an empty query result. */
  datatype Option<+T> = None | Some(value: T)

  /** The outcome of a request handler: a response body, or the error it throws. */
  datatype Result<+R, +E> = Success(value: R) | Failure(error: E)
}

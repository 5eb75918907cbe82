/** Option and Result, the usual failure-carrying wrappers. */
module Wrappers {

  /** A value that may be absent; None stands for Java's null. */
  datatype Option<+T> = None | Some(value: T)

  /** Either a returned value or the exception a call ended with. */
  datatype Result<+R, +E> = Success(value: R) | Failure(error: E)
}

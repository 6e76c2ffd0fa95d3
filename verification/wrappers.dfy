/** Failure-carrying wrappers shared by the parser and the plot model. */
module Wrappers {

  /** A value that may be missing: the parser's "the line did not yield a number". */
  datatype Option<+T> = None | Some(value: T)

  /** A value or the error that prevented computing it. */
  datatype Result<+T, +E> = Success(value: T) | Failure(error: E)
}

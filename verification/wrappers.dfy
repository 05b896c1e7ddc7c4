/** Failure-carrying wrappers shared by the other modules. */
module Wrappers {

  /** A value that may be absent: Python's `None` or a missing AST field. */
  datatype Option<+T> = None | Some(value: T)

  /** The outcome of an operation that either returns a value or raises. */
  datatype Result<+R, +E> = Success(value: R) | Failure(error: E)
}

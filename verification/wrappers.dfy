/** Option and Result datatypes shared by the other modules:
    Option stands for a .NET reference that may be null, Result for a call
    that either returns a value or throws. */
module Wrappers {

  /** A value that may be absent (a null reference in the program). */
  datatype Option<+T> = None | Some(value: T)

  /** A call that returns `value`, or throws the exception described by `error`. */
  datatype Result<+T, +E> = Success(value: T) | Failure(error: E)
}

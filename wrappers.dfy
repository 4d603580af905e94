/** Option and Result, the shapes used for the server's nullable values and for
    operations that may throw. */
module Wrappers {

  /** A value that may be absent (a .NET null). */
  datatype Option<+T> = None | Some(value: T)

  /** The outcome of an operation that either returns a value or throws. */
  datatype Result<+R, +E> = Success(value: R) | Failure(error: E)
}

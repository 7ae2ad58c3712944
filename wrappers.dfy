/** Result types standing in for the C++ exceptions and null pointers of the source. */
module Wrappers {

  /** A value that may be absent: the model of a pointer that may be `nullptr`. */
  datatype Option<+T> = None | Some(value: T)

  /** Either a value or the error that a C++ `throw` would have raised. */
  datatype Result<+T, +E> = Success(value: T) | Failure(error: E)

  /** Success without a value, or the error that a `void` operation would have thrown. */
  datatype Outcome<+E> = Pass | Fail(error: E)
}

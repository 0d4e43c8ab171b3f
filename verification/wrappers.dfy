/** Option and Result, the failure-carrying shapes used throughout the model. */
module Wrappers {

  /** A value that may be missing: Go's `(T, error)` pair when only the
      presence of an error matters. */
  datatype Option<+T> = None | Some(value: T)

  /** A value or an error message: Go's `(T, error)` pair when the error
      text is used. */
  datatype Result<+T> = Success(value: T) | Failure(error: string)
}

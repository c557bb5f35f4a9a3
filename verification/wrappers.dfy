/** Failure-compatible result types used throughout the model. */
module Wrappers {

  /** A value that may be absent; also stands for Python's `None`. */
  datatype Option<+T> = None | Some(value: T)

  /** Either a computed value or the error the Python code would raise. */
  datatype Result<+R, +E> = Success(value: R) | Failure(error: E)
}

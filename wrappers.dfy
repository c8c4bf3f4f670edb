/** The optional value and the outcome type shared by the converters. */
module Wrappers {

  /** An optional value: Python's None, or a pandas NaN cell, is None. */
  datatype Option<+T> = None | Some(value: T)

  /** The outcome of an operation that may raise. */
  datatype Result<+R, +E> = Success(value: R) | Failure(error: E)
}

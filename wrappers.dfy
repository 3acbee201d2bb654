/** Option and Result: the absent values and error returns of the modelled code. */
module Wrappers {

  /** A value that may be missing (a null cell, an absent column, NaN). */
  datatype Option<+T> = None | Some(value: T)

  /** The outcome of an operation that the source lets raise an exception. */
  datatype Result<+T, +E> = Success(value: T) | Failure(error: E)
}

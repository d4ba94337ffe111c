/** Failure-compatible result types shared by the model. */
module Wrappers {

  /** An optional value: Python's `X | None`. */
  datatype Option<+T> = None | Some(value: T)

  /** A value or the error the source raises instead of returning one. */
  datatype Result<+R, +E> = Success(value: R) | Failure(error: E)

  /** The outcome of an operation that returns nothing but may raise. */
  datatype Outcome<+E> = Pass | Fail(error: E)
}

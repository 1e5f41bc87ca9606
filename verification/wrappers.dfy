/** Failure-carrying datatypes used across the model. */
module Wrappers {

  /** A value that may be missing; `None` stands for a C# `null` reference. */
  datatype Option<+T> = None | Some(value: T)

  /** The outcome of an operation that either yields a value or throws. */
  datatype Result<+R, +E> = Success(value: R) | Failure(error: E)

  /** The outcome of a check that either passes or throws. */
  datatype Outcome<+E> = Pass | Fail(error: E)
}

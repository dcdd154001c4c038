/** Failure-carrying return values, standing in for the exceptions the
    source raises (every `raise ValueError(...)` becomes a `Failure`/`Fail`). */
module Wrappers {

  datatype Option<+T> = None | Some(value: T)

  /** The value of an operation that either returns `value` or raises `error`. */
  datatype Result<+R, +E> = Success(value: R) | Failure(error: E)

  /** The outcome of a check that returns nothing or raises `error`. */
  datatype Outcome<+E> = Pass | Fail(error: E)
}

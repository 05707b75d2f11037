/** Failure-carrying result types shared by every module of the model. */
module Wrappers {

  /** A value that may be absent: a JavaScript property that is `undefined`, a lookup that finds nothing. */
  datatype Option<+T> = None | Some(value: T)

  /** The outcome of an operation that either produces a value or throws an error. */
  datatype Result<+T, +E> = Ok(value: T) | Err(error: E)

  /** The outcome of a check that either passes or throws an error. */
  datatype Outcome<+E> = Pass | Fail(error: E)
}

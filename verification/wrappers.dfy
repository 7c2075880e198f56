/** Failure-carrying result types shared by the modules of this model. */
module Wrappers {

  /** A value that may be absent; stands for JavaScript's `null`/`undefined` where the source allows them. */
  datatype Option<+T> = None | Some(value: T)

  /** The outcome of an operation that either returns a value or throws an error. */
  datatype Result<+T, +E> = Ok(value: T) | Err(error: E)
}

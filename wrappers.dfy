/** Failure-carrying wrappers shared by every module of the model. */
module Wrappers {

  /** A value that may be absent, as `undefined` is in the TypeScript source. */
  datatype Option<+T> = None | Some(value: T)

  /** The outcome of an operation that either returns a value or throws `error`. */
  datatype Result<+T, +E> = Ok(value: T) | Err(error: E)
}

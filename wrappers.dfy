/** Failure-carrying values shared by the modules of this model. */
module Wrappers {

  /** A value that may be missing: `None` stands for JavaScript's `undefined`
      or for an operation that threw. */
  datatype Option<+T> = None | Some(value: T)

  /** A value, or the error that the computation raised instead. */
  datatype Result<+T, +E> = Ok(value: T) | Err(error: E)
}

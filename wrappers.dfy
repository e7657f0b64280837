/** Small failure-carrying datatypes shared by the store, controller and user modules. */
module Wrappers {

  /** A value that may be absent: a JavaScript `undefined` field, a missing lookup. */
  datatype Option<+T> = None | Some(value: T)

  /** The outcome of a call that either yields a value or fails with an error. */
  datatype Result<+T, +E> = Ok(value: T) | Err(error: E)
}

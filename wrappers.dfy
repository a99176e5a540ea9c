/** Failure-carrying results shared by the modules of this model. */
module Wrappers {

  datatype Option<+T> = None | Some(value: T)

  /** The outcome of an operation that the original program ends by raising an exception. */
  datatype Result<+T, +E> = Ok(value: T) | Err(error: E)
}

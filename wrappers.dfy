/** Failure-carrying results shared by the modules of the model. */
module Wrappers {

  datatype Option<+T> = None | Some(value: T)

  /** A value, or the error (or panic) that replaced it. */
  datatype Result<+T, +E> = Ok(value: T) | Err(error: E)
}

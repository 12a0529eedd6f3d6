/** Failure-carrying results shared by every module of the model. */
module Wrappers {

  /** An optional value: `None` when absent. */
  datatype Option<+T> = None | Some(value: T)

  /** The outcome of an instruction or handler: a value, or the error it returned. */
  datatype Result<+T, +E> = Ok(value: T) | Err(error: E)
}

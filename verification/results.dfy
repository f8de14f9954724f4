/** Failure-carrying wrappers shared by every module of the model. */
module Results {

  /** A value that may be absent: a NULL pointer, a failed call, a branch that gives up. */
  datatype Option<+T> = None | Some(value: T)

  /** The outcome of an operation that either succeeds with a value or fails with an error. */
  datatype Result<+T, +E> = Ok(value: T) | Err(error: E)
}

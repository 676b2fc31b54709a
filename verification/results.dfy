/** Failure-carrying values shared by every module of the model. */
module Results {

  /** A value that may be absent, as a Python `None` return or an empty `fetchone()`. */
  datatype Option<+T> = None | Some(value: T)

  /** The outcome of a call that either returns a value or raises. */
  datatype Result<+T, +E> = Ok(value: T) | Err(error: E)
}

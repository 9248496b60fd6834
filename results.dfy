/** Failure-compatible wrappers shared by the other modules. */
module Results {

  /** A value that may be absent (Python's `None`). */
  datatype Option<+T> = None | Some(value: T)

  /** The outcome of an operation that either yields a value or raises. */
  datatype Result<+T, +E> = Ok(value: T) | Err(error: E)

  /** The outcome of a check that yields nothing on success. */
  datatype Outcome<+E> = Pass | Fail(error: E)
}

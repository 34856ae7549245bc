/** Failure-carrying values shared by every module of the output manager. */
module Results {

  /** A value that may be absent (an optional field, a missing directory entry). */
  datatype Option<+T> = None | Some(value: T)

  /** The outcome of an operation that yields a value or fails with an error. */
  datatype Result<+T, +E> = Ok(value: T) | Err(error: E)

  /** The outcome of an operation that yields nothing but may fail. */
  datatype Outcome<+E> = Pass | Fail(error: E)
}

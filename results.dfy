/** The outcome of an operation that the source can abort with an exception. */
module Results {

  /** `Ok(value)` on normal return, `Err(error)` when the source raises. */
  datatype Result<+T, +E> = Ok(value: T) | Err(error: E)

  /** A value that may be missing. */
  datatype Option<+T> = None | Some(value: T)
}

/** Failure-carrying values used in place of Java's exceptions and `null`. */
module Results {

  /** A value or nothing: the model of a reference that may be `null`. */
  datatype Option<+T> = None | Some(value: T)

  /** A value or the error that was thrown instead of producing it. */
  datatype Result<+T, +E> = Ok(value: T) | Err(error: E)

  /** Completion of a `void` operation: normal return, or the error it threw. */
  datatype Outcome<+E> = Pass | Fail(error: E)
}

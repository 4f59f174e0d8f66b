/** Failure-carrying result types used in place of Java's null returns and exceptions. */
module Results {

  /** A value that may be absent (Java's nullable return). */
  datatype Option<+T> = None | Some(value: T)

  /** A computed value, or the exception that replaced it. */
  datatype Result<+R, +E> = Success(value: R) | Failure(error: E)

  /** Completion of a void Java method: it returned normally, or it threw. */
  datatype Outcome<+E> = Pass | Fail(error: E)
}

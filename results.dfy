/** Failure-compatible wrappers for the exceptions the engine throws. */
module Results {

  /** A value, or the error that aborted the computation. */
  datatype Result<+T, +E> = Success(value: T) | Failure(error: E)

  /** Completion of an operation that returns nothing, or the error that aborted it. */
  datatype Outcome<+E> = Pass | Fail(error: E)
}

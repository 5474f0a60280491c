/** Failure-compatible wrappers shared by every module of the model. */
module Results {

  /** A value that may be absent: a nil value in Go, a NULL column, a missing message. */
  datatype Option<+T> = None | Some(value: T)

  /** The (value, error) pair a Go function returns, with exactly one side set. */
  datatype Result<+T, +E> = Success(value: T) | Failure(error: E)
}

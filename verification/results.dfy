/** Failure-carrying values used where the Go code returns `(T, error)` or a bare `error`. */
module Results {

  /** A value that may be absent. */
  datatype Option<+T> = None | Some(value: T)

  /** Go's `(value, err)` pair: exactly one of the two is meaningful. */
  datatype Result<+T, +E> = Ok(value: T) | Err(error: E)

  /** Go's bare `error` return: `nil` is `Pass`. */
  datatype Outcome<+E> = Pass | Fail(error: E)
}

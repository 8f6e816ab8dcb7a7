/** Option and Result values used for the error paths of the reconciliation engine:
    a parse that raises, a lookup that raises, a division by zero. */
module Results {

  /** A value that may be absent, e.g. the outcome of parsing one number. */
  datatype Option<+T> = None | Some(value: T)

  /** The outcome of an operation that either produces a value or raises. */
  datatype Result<+R, +E> = Success(value: R) | Failure(error: E)
}

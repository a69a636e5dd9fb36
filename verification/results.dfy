/** Failure-carrying values shared by the validators and the lookups. */
module Results {

  /** A value that may be absent: a nullable foreign key, an optional date. */
  datatype Option<+T> = None | Some(value: T)

  /** The outcome of a validator: it passes, or it raises one validation error. */
  datatype Outcome<+E> = Pass | Fail(error: E)

  /** The outcome of an operation that produces a value or fails. */
  datatype Result<+T, +E> = Success(value: T) | Failure(error: E)
}

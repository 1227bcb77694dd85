/** Failure-carrying values used by the rest of the model. */
module Results {

  /** A value that may be absent: a regex match that may fail, a search that may find nothing. */
  datatype Option<T> = None | Some(value: T)

  /** The outcome of an operation that raises in the program: a value or the error it raised. */
  datatype Result<T, E> = Success(value: T) | Failure(error: E)
}

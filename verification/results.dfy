/** Optional values and success/failure results shared by every module. */
module Results {

  /** A value that may be absent (JavaScript `null` / `undefined`). */
  datatype Option<+T> = None | Some(value: T)

  /** The outcome of an operation that can throw: a value or an error message. */
  datatype Result<+T, +E> = Success(value: T) | Failure(error: E)
}

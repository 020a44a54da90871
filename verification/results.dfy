/** Failure-carrying values used throughout the model: an optional value and a
    success-or-error result, standing in for the exceptions the library throws. */
module Results {

  /** A value that may be absent. */
  datatype Option<+T> = None | Some(value: T)

  /** Either a success value or an error value. */
  datatype Result<+T, +E> = Success(value: T) | Failure(error: E)
}

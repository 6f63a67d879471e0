/**
 Optional and result values used for the error paths of the model
 (configuration assertions, malformed trace addresses).
 */
module Results {
  datatype Option<+T> = None | Some(value: T)

  datatype Result<+T, +E> = Success(value: T) | Failure(error: E)
}

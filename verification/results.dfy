/** Carriers for the model's error paths: a missing value and a value-or-error. */
module Results {

  datatype Option<T> = None | Some(value: T)

  datatype Result<T, E> = Success(value: T) | Failure(error: E)
}

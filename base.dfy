/** Option and Result values shared by every module of the model. */
module Base {

  datatype Option<+T> = None | Some(value: T)

  /** A computation that either yields a value or fails with an error, in place of a thrown exception. */
  datatype Result<+T, +E> = Success(value: T) | Failure(error: E)
}

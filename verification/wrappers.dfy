/** Option and Result values used for the model's error paths. */
module Wrappers {

  /** A value that may be absent (a storage read that found nothing). */
  datatype Option<+T> = None | Some(value: T)

  /** Either a successful value or an error describing why the operation was refused. */
  datatype Result<+T, +E> = Success(value: T) | Failure(error: E)
}

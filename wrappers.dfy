/** Option and Result values shared by the store and the request handlers. */
module Wrappers {

  datatype Option<+T> = None | Some(value: T)

  /** Either a value or the error a Ruby method raises instead of returning. */
  datatype Result<+T, +E> = Success(value: T) | Failure(error: E)
}

/** Optional values and results with an error message, for the error paths of the source. */
module Wrappers {

  datatype Option<T> = None | Some(value: T)

  /** A thrown error (ThrowError / Assert in the source) becomes Failure. */
  datatype Result<T> = Success(value: T) | Failure(error: string)
  {
    predicate IsFailure() {
      Failure?
    }
  }
}

/** Optional values and results with failure propagation, shared by every module of the model. */
module Wrappers {

  datatype Option<+T> = None | Some(value: T)

  /** A value or an error; usable with `:-`. */
  datatype Result<+T, +E> = Success(value: T) | Failure(error: E) {

    predicate IsFailure() {
      Failure?
    }

    function PropagateFailure<U>(): Result<U, E>
      requires Failure?
    {
      Failure(error)
    }

    function Extract(): T
      requires Success?
    {
      value
    }
  }
}

/** Failure-carrying results used by every operation of the engine. */
module Wrappers {

  /** An optional value: the model's stand-in for a Java reference that may be null. */
  datatype Option<+T> = None | Some(value: T)

  /** Either a value or the reason the computation could not produce one. */
  datatype Result<+R, +E> = Success(value: R) | Failure(error: E) {
    predicate IsFailure() {
      Failure?
    }

    function PropagateFailure<U>(): Result<U, E>
      requires Failure?
    {
      Failure(error)
    }

    function Extract(): R
      requires Success?
    {
      value
    }
  }
}

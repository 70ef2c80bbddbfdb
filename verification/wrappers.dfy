/** Failure-compatible result types shared by the model. */
module Wrappers {

  /** An optional value: the model's counterpart of a C# nullable. */
  datatype Option<+T> = None | Some(value: T)

  /** The outcome of an operation that the source lets throw an exception. */
  datatype Result<+R, +E> = Success(value: R) | Failure(error: E) {
    predicate IsFailure() {
      Failure?
    }

    function PropagateFailure<U>(): Result<U, E>
      requires Failure?
    {
      Failure(error)
    }

    function Extract(): R
      requires Success?
    {
      value
    }
  }
}

/** Option and Result: the failure-carrying datatypes the rest of the model
    returns instead of throwing. */
module Wrappers {

  datatype Option<+T> = None | Some(value: T)

  /** `Failure` plays the part of a JavaScript `throw`: it carries what was thrown. */
  datatype Result<+R, +E> = Success(value: R) | Failure(error: E) {
    predicate IsFailure() {
      Failure?
    }

    function PropagateFailure<U>(): Result<U, E>
      requires Failure?
    {
      Failure(error)
    }

    function Extract(): R
      requires Success?
    {
      value
    }
  }
}

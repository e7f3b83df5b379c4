/** Null-able references, and the failure-compatible result type used for the exceptions the C++ code throws. */
module Wrappers {

  /** The runtime errors that the modelled code can raise. */
  datatype Error =
    | DimensionMismatch   // std::runtime_error("different sizes") from dot/cost
    | LengthError         // std::length_error from constructing a vector with a negative size

  /** A possibly-null reference; `None` plays the part of `nullptr`. */
  datatype Option<+T> = None | Some(value: T)

  datatype Result<+T> = Success(value: T) | Failure(error: Error) {

    predicate IsFailure() {
      Failure?
    }

    function PropagateFailure<U>(): Result<U>
      requires Failure?
    {
      Failure(error)
    }

    function Extract(): T
      requires Success?
    {
      value
    }
  }
}

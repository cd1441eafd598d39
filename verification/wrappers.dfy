/** Failure-carrying results shared by every module of the model. */
module Wrappers {

  /** Kotlin's nullable `T?`. */
  datatype Option<+T> = None | Some(value: T) {
    function GetOr(default: T): T {
      match this
      case Some(v) => v
      case None => default
    }
  }

  /** A computation that either returns a value or throws; a thrown
      exception is a `Failure` carrying its description. */
  datatype Result<+T, +E> = Success(value: T) | Failure(error: E) {
    predicate IsFailure() {
      Failure?
    }

    function PropagateFailure<U>(): Result<U, E>
      requires Failure?
    {
      Failure(error)
    }

    function Extract(): T
      requires Success?
    {
      value
    }
  }

  /** Which reading of a defective source line a model follows: the code
      as written, or the evidently intended code (README, "Findings"). */
  datatype Variant = AsWritten | Corrected
}

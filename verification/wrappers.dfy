/** Failure-carrying wrappers shared by every module of the model. */
module Wrappers {

  /** A value that may be absent (a missing map entry, a `None` in Python). */
  datatype Option<+T> = None | Some(value: T) {
    function GetOr(default: T): T {
      match this
      case Some(v) => v
      case None => default
    }
  }

  /** The outcome of an operation that the original program lets throw. */
  datatype Result<+R, +E> = Success(value: R) | Failure(error: E) {
    predicate IsFailure() {
      Failure?
    }

    function PropagateFailure<U>(): Result<U, E>
      requires Failure?
    {
      Failure(error)
    }

    function Extract(): R
      requires Success?
    {
      value
    }

    /** The same outcome with the error translated. */
    function MapFailure<NewE>(translate: E -> NewE): Result<R, NewE>
    {
      match this
      case Success(v) => Success(v)
      case Failure(e) => Failure(translate(e))
    }
  }
}

/** Failure-compatible wrappers shared by the whole model. */
module Wrappers {

  /** An optional value: `None` stands for "not found". */
  datatype Option<+T> = None | Some(value: T)

  /** The outcome of a stage that can fail with an error value. */
  datatype Result<+T, +E> = Success(value: T) | Failure(error: E) {
    predicate IsFailure() {
      Failure?
    }

    function PropagateFailure<U>(): Result<U, E>
      requires Failure?
    {
      Failure(error)
    }

    function Extract(): T
      requires Success?
    {
      value
    }
  }
}

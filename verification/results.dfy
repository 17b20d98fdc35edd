/** Failure-compatible wrappers used throughout the model. */
module Results {

  /** A value that may be absent: SQL NULL, a missing query result. */
  datatype Option<+T> = None | Some(value: T)

  /** The outcome of a step that can abort the whole run. */
  datatype Result<+T, +E> = Success(value: T) | Failure(error: E) {

    predicate IsFailure() {
      Failure?
    }

    function PropagateFailure<U>(): Result<U, E>
      requires Failure?
    {
      Failure(error)
    }

    function Extract(): T
      requires Success?
    {
      value
    }
  }
}

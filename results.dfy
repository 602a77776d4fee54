/** Failure-compatible result types shared by the modules of this model. */
module Results {

  datatype Option<+T> = None | Some(value: T)

  /** The outcome of an operation that the Python code may abort by raising. */
  datatype Result<+R, +E> = Success(value: R) | Failure(error: E) {

    predicate IsFailure() {
      Failure?
    }

    function PropagateFailure<U>(): Result<U, E>
      requires Failure?
    {
      Failure(error)
    }

    function Extract(): R
      requires Success?
    {
      value
    }
  }
}

/** Option and Result: the model's rendering of Swift optionals and of `throws`. */
module Results {

  datatype Option<+T> = None | Some(value: T)

  /** A Swift `throws` function either returns a value or throws one error. */
  datatype Result<+T, +E> = Success(value: T) | Failure(error: E) {
    predicate IsFailure() {
      Failure?
    }

    function PropagateFailure<U>(): Result<U, E>
      requires Failure?
    {
      Failure(error)
    }

    function Extract(): T
      requires Success?
    {
      value
    }
  }
}

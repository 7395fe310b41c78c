/** Failure-carrying return values: the model's stand-in for Go's `(T, error)` pairs. */
module Results {

  datatype Option<+T> = None | Some(value: T)

  /** `Success(v)` is a nil error with value `v`; `Failure(e)` is a non-nil error. */
  datatype Result<+T, +E> = Success(value: T) | Failure(error: E) {
    predicate IsFailure() {
      Failure?
    }

    function PropagateFailure<U>(): Result<U, E>
      requires Failure?
    {
      Failure(error)
    }

    function Extract(): T
      requires Success?
    {
      value
    }
  }
}

/** Success/failure values, standing for the `Result<T, E>` that every
    fallible operation of the renderer returns. Usable with `:-`. */
module Results {

  datatype Result<+T, +E> = Success(value: T) | Failure(error: E) {

    predicate IsFailure() {
      Failure?
    }

    function PropagateFailure<U>(): Result<U, E>
      requires Failure?
    {
      Failure(error)
    }

    function Extract(): T
      requires Success?
    {
      value
    }
  }
}

/** Failure-compatible wrappers used by every stage of the OCRA model.
    The library reports the first violated rule either by throwing or by a
    sticky status code; the model uses one `Result` for both. */
module Results {

  /** An optional value: the library's `std::optional`. */
  datatype Option<+T> = None | Some(value: T)

  /** Either a value or the error that stopped the computation. */
  datatype Result<+T, +E> = Success(value: T) | Failure(error: E) {

    predicate IsFailure() {
      Failure?
    }

    function PropagateFailure<U>(): Result<U, E>
      requires Failure?
    {
      Failure(error)
    }

    function Extract(): T
      requires Success?
    {
      value
    }
  }
}

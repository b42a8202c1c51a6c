/** Failure-compatible wrappers: the model's stand-in for Rust's `Option` and
    `Result`, usable with `:-` the way the handlers use `?`. */
module Results {

  datatype Option<+T> = None | Some(value: T)

  datatype Result<+T, +E> = Success(value: T) | Failure(error: E) {

    predicate IsFailure() {
      Failure?
    }

    function PropagateFailure<U>(): Result<U, E>
      requires Failure?
    {
      Failure(error)
    }

    function Extract(): T
      requires Success?
    {
      value
    }

    /** Rust's `map`: transform a success value, keep a failure as it is. */
    function MapValue<U>(f: T -> U): (r: Result<U, E>)
      ensures r.Success? <==> Success?
      ensures Success? ==> r.value == f(value)
      ensures Failure? ==> r.error == error
    {
      match this
      case Success(v) => Success(f(v))
      case Failure(e) => Failure(e)
    }

    /** Rust's `map_err`, and error_stack's `change_context` seen from the
        outermost frame: replace the error, keep a success value as it is. */
    function MapFailure<NewE>(f: E -> NewE): (r: Result<T, NewE>)
      ensures r.Success? <==> Success?
      ensures Success? ==> r.value == value
      ensures Failure? ==> r.error == f(error)
    {
      match this
      case Success(v) => Success(v)
      case Failure(e) => Failure(f(e))
    }
  }
}

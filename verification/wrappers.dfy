/** Small failure-compatible datatypes shared by the codec and the client model. */
module Wrappers {

  /** An optional value, the model of Rust's `Option<T>`. */
  datatype Option<+T> = None | Some(value: T)

  /** A value or an error, the model of Rust's `Result<T, E>`. */
  datatype Result<+T, +E> = Success(value: T) | Failure(error: E) {

    predicate IsFailure() {
      Failure?
    }

    function PropagateFailure<U>(): Result<U, E>
      requires Failure?
    {
      Failure(error)
    }

    function Extract(): T
      requires Success?
    {
      value
    }
  }
}

/** Option and Result, the result types every other module shares. */
module Wrappers {

  datatype Option<+T> = None | Some(value: T)

  /** A value or an error; supports `:-`, which is how the models spell Rust's `?`. */
  datatype Result<+T, +E> = Ok(value: T) | Err(error: E) {
    predicate IsFailure() {
      Err?
    }

    function PropagateFailure<U>(): Result<U, E>
      requires Err?
    {
      Err(error)
    }

    function Extract(): T
      requires Ok?
    {
      value
    }
  }
}

/** The failure-compatible types every other module returns. */
module Wrappers {

  datatype Option<+T> = None | Some(value: T)

  /** The value of a computation, or the error it stopped with; usable with `:-`. */
  datatype Result<+T, +E> = Ok(value: T) | Err(error: E) {

    predicate IsFailure() {
      Err?
    }

    function PropagateFailure<U>(): Result<U, E>
      requires Err?
    {
      Err(error)
    }

    function Extract(): T
      requires Ok?
    {
      value
    }
  }
}

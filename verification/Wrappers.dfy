/** The two result types the other modules share. */
module Wrappers {

  /** A value that may be absent: a nil slice, pointer or error. */
  datatype Option<+T> = None | Some(value: T)

  /** A value or the error returned instead of it. */
  datatype Result<+T, +E> = Ok(value: T) | Err(error: E) {
    predicate IsFailure() { Err? }

    function PropagateFailure<U>(): Result<U, E>
      requires Err?
    {
      Err(error)
    }

    function Extract(): T
      requires Ok?
    {
      value
    }
  }
}

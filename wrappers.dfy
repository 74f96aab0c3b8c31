/** Failure-compatible wrappers shared by the EXIF model. */
module Wrappers {

  datatype Option<+T> = None | Some(value: T)

  /** The outcome of a step that may throw: a value, or the error it throws. */
  datatype Result<+T, +E> = Ok(value: T) | Err(error: E) {

    predicate IsFailure() {
      Err?
    }

    function PropagateFailure<U>(): Result<U, E>
      requires Err?
    {
      Err(error)
    }

    function Extract(): T
      requires Ok?
    {
      value
    }
  }
}

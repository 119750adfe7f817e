/** Failure-compatible result types shared by the whole model. */
module Wrappers {

  /** A value that may be absent; `None` stands for a .NET `null`. */
  datatype Option<+T> = None | Some(value: T)

  /** Either a value or the error the .NET code would have thrown. */
  datatype Result<+T, +E> = Ok(value: T) | Err(error: E) {
    predicate IsFailure() { Err? }

    function PropagateFailure<U>(): Result<U, E>
      requires Err?
    {
      Err(error)
    }

    function Extract(): T
      requires Ok?
    {
      value
    }
  }
}

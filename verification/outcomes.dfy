/** Failure-compatible result types. The compiler reports every error through
    `fatal`, which prints the message and ends the process; the model returns
    `Err(...)` instead and lets the caller propagate it with `:-`. */
module Outcomes {

  datatype Option<+T> = None | Some(value: T)

  datatype Result<+T, +E> = Ok(value: T) | Err(error: E) {

    predicate IsFailure() {
      Err?
    }

    function PropagateFailure<U>(): Result<U, E>
      requires Err?
    {
      Err(error)
    }

    function Extract(): T
      requires Ok?
    {
      value
    }
  }
}

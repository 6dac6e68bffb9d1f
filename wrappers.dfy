/** Failure-compatible result types. The library reports every failure by
    throwing JsonException; the model returns these values instead. */
module Wrappers {

  datatype Option<+T> = None | Some(value: T)

  /** The outcome of an operation that yields a value or fails. */
  datatype Result<+T, +E> = Ok(value: T) | Err(error: E) {
    predicate IsFailure() { Err? }

    function PropagateFailure<U>(): Result<U, E>
      requires Err?
    {
      Err(error)
    }

    function Extract(): T
      requires Ok?
    {
      value
    }
  }

  /** The outcome of an operation that only changes state or fails. */
  datatype Outcome<+E> = Pass | Fail(error: E) {
    predicate IsFailure() { Fail? }

    function PropagateFailure(): Outcome<E>
      requires Fail?
    {
      this
    }
  }
}

/** Option and Result, shared by the modules that model absent values and thrown errors. */
module Wrappers {

  datatype Option<+T> = None | Some(value: T)

  /** A call that may throw: `Err` carries what was thrown. */
  datatype Result<+T, +E> = Ok(value: T) | Err(error: E) {

    predicate IsFailure() {
      Err?
    }

    function PropagateFailure<U>(): Result<U, E>
      requires Err?
    {
      Err(error)
    }

    function Extract(): T
      requires Ok?
    {
      value
    }
  }

  /** A call without a result that may throw. */
  datatype Outcome<+E> = Pass | Thrown(error: E) {

    predicate IsFailure() {
      Thrown?
    }

    function PropagateFailure(): Outcome<E>
      requires Thrown?
    {
      this
    }
  }
}

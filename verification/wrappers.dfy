/**
  Outcomes shared by every module: a cell that may hold pandas' NaN is an
  `Option` (NaN is `None`), and a step that may raise returns a `Result`
  holding either its value or the exception it raises.
 */
module Wrappers {

  datatype Option<+T> = None | Some(value: T)

  datatype Result<+T, +E> = Ok(value: T) | Err(error: E) {

    /** An exception stops the step: `:-` hands it on to the caller. */
    predicate IsFailure() {
      Err?
    }

    /** The same exception, for a caller expecting another value type. */
    function PropagateFailure<U>(): Result<U, E>
      requires Err?
    {
      Err(error)
    }

    /** The value of a step that did not raise. */
    function Extract(): T
      requires Ok?
    {
      value
    }
  }
}

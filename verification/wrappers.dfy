/**
 * Failure-carrying datatypes shared by the model: Python's `None`, raised
 * exceptions and failed `assert`s are represented by these values instead of
 * by preconditions.
 */
module Wrappers {

  /** A value that may be Python's `None`. */
  datatype Option<+T> = None | Some(value: T) {

    /** The value, or `default` when this is `None` (Python's `x if x is not None else default`). */
    function GetOr(default: T): T {
      match this
      case Some(v) => v
      case None => default
    }
  }

  /** The outcome of an operation that either returns a value or raises. */
  datatype Result<+R, +E> = Ok(value: R) | Err(error: E) {

    predicate IsFailure() {
      Err?
    }

    function PropagateFailure<U>(): Result<U, E>
      requires Err?
    {
      Err(error)
    }

    function Extract(): R
      requires Ok?
    {
      value
    }
  }

  /** The outcome of a check that either passes silently or raises. */
  datatype Outcome<+E> = Pass | Fail(error: E)
}

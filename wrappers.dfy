/** Failure-compatible wrappers shared by every module of the model. Python exceptions
    are modelled as an `Err` carrying the exception class that the source raises. */
module Wrappers {

  datatype Option<+T> = None | Some(value: T) {
    function GetOr(default: T): T {
      match this
      case Some(v) => v
      case None => default
    }
  }

  /** The Python exception classes raised by the modelled code. */
  datatype PyError =
    | ValueError
    | KeyError
    | IndexError
    | ZeroDivisionError
    | AssertionError
    | AttributeError
    | TypeError
    | BadParameter
    | HttpError(status: int)

  datatype Result<+T> = Ok(value: T) | Err(error: PyError) {
    predicate IsFailure() { Err? }
    function PropagateFailure<U>(): Result<U>
      requires Err?
    {
      Err(error)
    }
    function Extract(): T
      requires Ok?
    {
      value
    }
  }
}

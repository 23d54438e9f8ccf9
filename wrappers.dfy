/** Option and Result values, and the Python exception kinds the modelled
    code can raise. A raised exception that aborts the whole operation is
    modelled as a `Failure` carrying its kind. */
module Wrappers {

  datatype Option<+T> = None | Some(value: T)

  datatype Result<+R> = Success(value: R) | Failure(error: PyError) {
    predicate IsFailure() { Failure? }

    function PropagateFailure<U>(): Result<U>
      requires Failure?
    {
      Failure(error)
    }

    function Extract(): R
      requires Success?
    {
      value
    }
  }

  /** The exception classes that the modelled Python code can raise. */
  datatype PyError =
    | IndexError
    | KeyError
    | ValueError
    | TypeError
    | AttributeError
    | ZeroDivisionError
}

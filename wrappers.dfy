/** Failure-carrying results shared by every module of the model, and the
    exceptions of the .NET runtime that the modelled code can raise. */
module Wrappers {

  datatype Option<+T> = None | Some(value: T)

  /** A value, or the exception that the source would have thrown instead. */
  datatype Result<+R> = Success(value: R) | Failure(error: Exception) {
    predicate IsFailure() { Failure? }
    function PropagateFailure<U>(): Result<U>
      requires Failure?
    {
      Failure(error)
    }
    function Extract(): R
      requires Success?
    {
      value
    }
  }

  /** The outcome of an operation that returns nothing. */
  datatype Outcome = Pass | Fail(error: Exception)

  /** The runtime exceptions the modelled code can end in. */
  datatype Exception =
    | IndexOutOfRange      // IndexOutOfRangeException, ArgumentOutOfRangeException
    | NullReference        // NullReferenceException
    | DivideByZero         // DivideByZeroException (decimal division)
    | NoElements           // InvalidOperationException from First() on an empty sequence
    | DuplicateKey         // ArgumentException from Dictionary.Add
    | NotImplemented       // NotImplementedException
}

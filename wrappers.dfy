/**
 * Outcome types shared by the model.  A C# method that throws is modelled by a
 * member that returns `Failure(e)`, where `e` names the .NET exception type.
 */
module Wrappers {

  /** The .NET exception types the modelled code can raise. */
  datatype Error =
    | ArgumentException
    | ArgumentOutOfRangeException
    | ArgumentNullException
    | IndexOutOfRangeException
    | InvalidOperationException
    | NullReferenceException
    | DivideByZeroException
    | OverflowException
    | FormatException
    | KeyNotFoundException

  /** A C# reference that may be null. */
  datatype Option<+T> = None | Some(value: T)

  /** A value, or the exception raised instead of producing it. */
  datatype Result<+T> = Success(value: T) | Failure(error: Error)
  {
    predicate IsFailure() {
      Failure?
    }

    function PropagateFailure<U>(): Result<U>
      requires Failure?
    {
      Failure(error)
    }

    function Extract(): T
      requires Success?
    {
      value
    }
  }

  /** Completion of a C# method that returns `void`: normal, or by an exception. */
  datatype Outcome = Pass | Fail(error: Error)
}

/** Failure-compatible wrappers shared by every module of the model.

  The C# sources signal missing values with `null` and errors with
  exceptions; the model uses `Option` for the former and `Result` for the
  latter.  `Exc` names the exception class a C# method throws, so that a
  contract can say which error a given input leads to.
 */
module Wrappers {

  /** A value that may be absent (a C# reference that may be `null`). */
  datatype Option<+T> = None | Some(value: T) {
    predicate IsFailure() { None? }

    function PropagateFailure<U>(): Option<U>
      requires None?
    {
      None
    }

    function Extract(): T
      requires Some?
    {
      value
    }

    function GetOr(default: T): T {
      if Some? then value else default
    }
  }

  /** The exception classes thrown by the modelled code. */
  datatype Exc =
    | IllegalArgument(msg: string)      // System.ArgumentException
    | IllegalState(msg: string)         // System.InvalidOperationException
    | IOFailure(msg: string)            // System.IO.IOException and its CharConversion subclass
    | ParseFailure(msg: string)         // JsonParseException
    | GenerationFailure(msg: string)    // JsonGenerationException
    | IndexOutOfRange                   // System.IndexOutOfRangeException
    | NullReference                     // System.NullReferenceException
    | Overflow                          // System.OverflowException
    | Format                            // System.FormatException

  /** Either a value or the exception raised while computing it. */
  datatype Result<+T> = Success(value: T) | Failure(error: Exc) {
    predicate IsFailure() { Failure? }

    function PropagateFailure<U>(): Result<U>
      requires Failure?
    {
      Failure(error)
    }

    function Extract(): T
      requires Success?
    {
      value
    }
  }

  /** `Pass` when a check succeeds, the exception otherwise. */
  datatype Outcome = Pass | Fail(error: Exc) {
    predicate IsFailure() { Fail? }

    function PropagateFailure<U>(): Result<U>
      requires Fail?
    {
      Failure(error)
    }
  }

  function Need(cond: bool, error: Exc): (r: Outcome)
    ensures r.Pass? <==> cond
  {
    if cond then Pass else Fail(error)
  }
}

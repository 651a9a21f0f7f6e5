/** Shared vocabulary of the model: bytes, the failure-compatible wrappers that stand for
    .NET's exceptions, and the exception kinds the modelled code throws. */
module Base {

  /** An unsigned 8-bit value, as `byte` in .NET. */
  type byte = b: int | 0 <= b < 256

  /** The exceptions the modelled code throws, by .NET type. */
  datatype Exception =
    | ArgumentNull(paramName: string)
    | ArgumentOutOfRange(paramName: string)
    | Argument(message: string)
    | ObjectDisposed
    | NullReference
    | IndexOutOfRange
    | PlatformNotSupported

  datatype Option<+T> = None | Some(value: T)

  /** A call that either returns a value or throws. */
  datatype Result<+R> = Success(value: R) | Failure(error: Exception) {
    predicate IsFailure() { Failure? }
    function PropagateFailure<U>(): Result<U>
      requires Failure?
    {
      Failure(error)
    }
    function Extract(): R
      requires Success?
    {
      value
    }
  }

  /** A call without a result that either completes or throws. */
  datatype Outcome = Pass | Fail(error: Exception)

  function Min(a: int, b: int): int { if a < b then a else b }
}

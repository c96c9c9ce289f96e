/** Optional values, and results whose failures stand for the exceptions the C# code throws. */
module Results {

  datatype Option<+T> = None | Some(value: T)

  datatype Error =
    | ArgumentNull
    | ArgumentOutOfRange
    | DuplicateKey
    | Framing
    | IndexOutOfRange
    | Integrity
    | InvalidOperation
    | NotSupported
    | NullReference
    | ResponseMismatch
    | SafetyViolation
    | Transport

  datatype Result<+T> = Ok(value: T) | Err(error: Error) {
    predicate IsFailure() {
      Err?
    }

    function PropagateFailure<U>(): Result<U>
      requires Err?
    {
      Err(error)
    }

    function Extract(): T
      requires Ok?
    {
      value
    }
  }
}

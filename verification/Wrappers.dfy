// Result and option types, and the library's error values (lib/error.c).
module Wrappers {

  datatype Option<+T> = None | Some(value: T)

  // One constructor for each error string that the modelled functions return.
  datatype Error =
    | IndexOutOfRange
    | KeyNotFound
    | InvalidDecimalSyntax
    // Not an error of the library: the spool does not hold what the writer takes it to hold.
    | SpoolBroken
    | InvalidJsonSyntax
    | InvalidUtf8
    | ParameterIsZero
    | UnsupportedDataType
    | FileFormatError
    | ValueExpected
    | KeyExpected
    | WriterFailed
    | UnmatchedEnd
    | BadRoot
    | OutOfVirtualMemory
    | TypeMismatch

  datatype Result<+T> = Ok(value: T) | Err(error: Error) {
    predicate IsFailure() { Err? }

    function PropagateFailure<U>(): Result<U>
      requires Err?
    {
      Err(error)
    }

    function Extract(): T
      requires Ok?
    {
      value
    }
  }

  // What a C function returns when its only result is a bijson_error_t.
  datatype Status = Success | Failure(error: Error) {
    predicate IsFailure() { Failure? }

    function PropagateFailure(): Status
      requires Failure?
    {
      this
    }
  }
}

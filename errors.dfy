/** The exceptions the timers throw, as values. An operation that returns
    normally yields `Pass` (or `Ok`), one that throws yields the exception. */
module Errors {

  datatype Exception =
    | ObjectDisposed(objectName: string)
    | ArgumentOutOfRange(paramName: string, message: string)
    | InvalidOperation(message: string)
    | Win32(errorCode: int)
    | PlatformNotSupported(message: string)

  /** Outcome of a `void` operation. */
  datatype Outcome = Pass | Fail(error: Exception)

  /** Outcome of an operation that returns a value. */
  datatype Result<T> = Ok(value: T) | Err(error: Exception)

  const ALREADY_RUNNING := "Timer is already running"
  const NOT_STARTED := "Timer has not been started"
  const NOT_RUNNING := "Timer is not running"
  const MUST_BE_POSITIVE := "Must be > 0"

  /** What a disposed timer throws from a guarded operation. */
  function Disposed(objectName: string): Exception {
    ObjectDisposed(objectName)
  }

  /** What every interval setter throws for 0. */
  function IntervalOutOfRange(): Exception {
    ArgumentOutOfRange("Interval", MUST_BE_POSITIVE)
  }
}

/** The exceptions the simulation engine can raise, and the result type that
    carries them instead of a Python `raise`. */
module Errors {

  datatype Error =
    /** `IndexError`: a list subscript outside `[-len, len)`. */
    | IndexError(index: int)
    /** `RuntimeError` from `threading.Thread.start`: a thread object can be started only once. */
    | ThreadAlreadyStarted
    /** `RuntimeError`: a thread joined before it was ever started. */
    | ThreadNotStarted

  datatype Result<+T> = Success(value: T) | Failure(error: Error)
}

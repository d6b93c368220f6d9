/** Failure-carrying values for the Python exceptions the core raises. */
module Wrappers {

  datatype Option<+T> = None | Some(value: T)

  /** The exception kinds the modelled code can raise. */
  datatype Error =
    | IndexError    // indexing out of range: `zip(*[])[0]`, an axis of a 0-d array
    | NameError     // a call to a name that is not defined
    | ReadError     // the video capture reporting an unsuccessful read

  datatype Result<+T> = Success(value: T) | Failure(error: Error)

  /** How a procedure without a result ends: normally, or by raising. */
  datatype Outcome = Pass | Fail(error: Error)
}

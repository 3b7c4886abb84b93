/** The error outcomes the matcher's range checks report. */
module Failures {

  /** The two kinds of error the core raises. */
  datatype Error = InvalidArgument | OutOfRange

  /** Result of an operation that returns nothing when it succeeds. */
  datatype Outcome = Pass | Fail(error: Error)

  /** Result of an operation that returns a value when it succeeds. */
  datatype Result<T> = Ok(value: T) | Err(error: Error)
}

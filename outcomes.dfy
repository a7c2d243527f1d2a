/** Failure-carrying return values standing in for the exceptions and the null
    results of the Java code. */
module Outcomes {

  /** The exceptions the core can raise on its own inputs. */
  datatype Error =
    | DimensionMismatch   // the IllegalArgumentException thrown when two lengths differ
    | IndexOutOfBounds    // ArrayIndexOutOfBoundsException from indexing row 0 or a short array

  /** A value that may be absent (Java's null). */
  datatype Option<+T> = None | Some(value: T)

  /** A computed value, or the exception that replaced it. */
  datatype Result<+T> = Success(value: T) | Failure(error: Error)

  /** A mutator that returned normally, or the exception it threw. */
  datatype Outcome = Pass | Fail(error: Error)
}

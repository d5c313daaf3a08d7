/**
 * Optional values and results for the operations of the exam-management core.
 *
 * The Java code reports failure by throwing: `EntityNotFoundException` from the
 * repositories, `IllegalArgumentException` from the services and from the
 * DTO validator, and `RuntimeException` wrapping whatever a repository query
 * catches. The model returns a `Result` instead and sorts those
 * exceptions into four kinds, each carrying the exception's message text.
 */
module Wrappers {

  /** `java.util.Optional`, and also any reference that may be null. */
  datatype Option<+T> = None | Some(value: T)

  /** The failures the core raises. */
  datatype Error =
    | NotFound(message: string)   // the referenced entity does not exist
    | Conflict(message: string)   // a uniqueness clash or a forbidden state change
    | Invalid(message: string)    // the DTO validator rejected the input
    | Internal(message: string)   // a runtime exception the code catches and wraps

  /** Either the value an operation returns, or the exception it throws. */
  datatype Result<+T> = Success(value: T) | Failure(error: Error) {

    predicate IsFailure() {
      Failure?
    }

    function PropagateFailure<U>(): Result<U>
      requires Failure?
    {
      Failure(error)
    }

    function Extract(): T
      requires Success?
    {
      value
    }
  }

  /** A check that passes or fails with an error, for use with `:-`. */
  datatype Check = Pass | Fail(error: Error) {

    predicate IsFailure() {
      Fail?
    }

    function PropagateFailure<U>(): Result<U>
      requires Fail?
    {
      Failure(error)
    }
  }

  function Need(condition: bool, error: Error): Check
  {
    if condition then Pass else Fail(error)
  }
}

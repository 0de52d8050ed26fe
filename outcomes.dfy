/** Values standing in for Java's `null` and for the exceptions the reservation model throws. */
module Outcomes {

  /** A possibly-null reference: `None` is `null`. */
  datatype Option<+T> = None | Some(value: T)

  /** The exceptions thrown by the domain classes and the repositories. */
  datatype Error =
    | IllegalArgument        // IllegalArgumentException: null or malformed argument
    | OperationNotSupported  // OperationNotSupportedException: duplicate on insert, absent on delete
    | DateTimeParse          // DateTimeParseException leaking out of the legacy day setter

  /** The result of a method or constructor that returns a value or throws. */
  datatype Result<+T> = Ok(value: T) | Err(error: Error) {
    predicate IsFailure() { Err? }

    function PropagateFailure<U>(): Result<U>
      requires Err?
    {
      Err(error)
    }

    function Extract(): T
      requires Ok?
    {
      value
    }
  }

  /** The result of a `void` method that may throw. */
  datatype Outcome = Pass | Fail(error: Error)
}

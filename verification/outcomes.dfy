/** Optional values and the exceptions the services throw, as values.

    The Java code signals "absent" with `Optional`/`null` and failures with
    exceptions. Here an absent value is `None`, and a thrown exception is an
    `Err` carrying the exception's class (as a `Failure` constructor) and its
    message. */
module Outcomes {

  datatype Option<+T> = None | Some(value: T)

  /** The exception classes that can escape the modelled services. */
  datatype Failure =
    | NotFound(message: string)          // ResourceNotFoundException
    | IllegalArgument(message: string)   // IllegalArgumentException, including Spring's Assert
    | DataAccess(message: string)        // a DataAccessException from the JDBC layer
    | DateTimeParse(message: string)     // java.time.format.DateTimeParseException
    | NullPointer(message: string)       // NullPointerException
  {
    function Message(): string {
      match this
      case NotFound(m) => m
      case IllegalArgument(m) => m
      case DataAccess(m) => m
      case DateTimeParse(m) => m
      case NullPointer(m) => m
    }
  }

  datatype Result<+T> = Ok(value: T) | Err(failure: Failure)
}

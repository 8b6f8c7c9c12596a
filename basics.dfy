/** Small value types shared by the whole model: optional values, results
    of operations that may raise, the exceptions the bot distinguishes,
    and bytes. */
module Basics {

  /** A Python value that may be `None`. */
  datatype Option<+T> = None | Some(value: T)

  /** The outcome of a Python call: a returned value or a raised exception. */
  datatype Result<+T, +E> = Success(value: T) | Failure(error: E)

  /** The exception classes the bot's handlers tell apart. */
  datatype Exception =
    | ServiceRequestError          // azure.core.exceptions.ServiceRequestError, the transient fault
    | ValueError(message: string)  // Python's ValueError with its message
    | OtherError                   // any other exception class

  newtype byte = x: int | 0 <= x < 256
}

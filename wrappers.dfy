/** Failure-compatible wrappers shared by the other modules. */
module Wrappers {

  /** A value that may be absent: Go's nil map or a missing lookup. */
  datatype Option<+T> = None | Some(value: T)

  /** The outcome of an encoding step: the value, or Go's error text. */
  datatype Result<+T> = Success(value: T) | Failure(error: string)
}

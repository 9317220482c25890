/** Values standing for a missing dictionary key and for an operation that raises. */
module Wrappers {

  /** A value that may be absent, as a dictionary key that may be missing. */
  datatype Option<+T> = None | Some(value: T)

  /** The outcome of an operation that either returns a value or raises with a message. */
  datatype Result<+T> = Ok(value: T) | Err(error: string)
}

/** Failure-carrying results shared by the other modules. */
module Wrappers {

  /** A value that may be missing. */
  datatype Option<+T> = None | Some(value: T)

  /** The outcome of an I/O call: a value, or the error it reports. */
  datatype Result<+T, +E> = Success(value: T) | Failure(error: E)
}

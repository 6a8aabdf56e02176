/** Failure-carrying wrappers shared by the other modules. */
module Wrappers {

  /** A value that may be absent: a missing document, a failed parse, a failed call. */
  datatype Option<+T> = None | Some(value: T)

  /** The outcome of a request handler: a payload or a distinguishable error kind. */
  datatype Result<+R, +E> = Success(value: R) | Failure(error: E)
}

/** Value wrappers shared by the other modules. */
module Wrappers {

  /** A value that may be absent: a Python call that raised, or returned None. */
  datatype Option<+T> = None | Some(value: T)

  /** The outcome of a step of the pipeline: a value or a typed error. */
  datatype Result<+T, +E> = Success(value: T) | Failure(error: E)
}

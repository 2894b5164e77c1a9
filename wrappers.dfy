/** Failure-carrying result types shared by every module of the model. */
module Wrappers {

  /** A value that may be absent (Python's `None`, or a `ValueError` from a
      validating constructor). */
  datatype Option<+T> = None | Some(value: T)
}

/** Small failure-carrying datatypes shared by the other modules. */
module Wrappers {

  /** A value that may be absent: Python's `None` versus a present value. */
  datatype Option<+T> = None | Some(value: T)

  /** The outcome of a step that can end the program with an error. */
  datatype Result<+R, +E> = Success(value: R) | Failure(error: E)
}

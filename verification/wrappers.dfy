/** Option and Result types used by the task store model. */
module Wrappers {

  /** A value that may be absent, as `find_task` returning `None`. */
  datatype Option<+T> = None | Some(value: T)

  /** The outcome of a command: a value, or the error the command reports. */
  datatype Result<+R, +E> = Success(value: R) | Failure(error: E)
}

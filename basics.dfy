/** Optional values and results shared by every module of the model. */
module Basics {

  /** A value that may be absent: Python's `None` versus a present value. */
  datatype Option<+T> = None | Some(value: T)

  /** The outcome of an operation that can raise: a value or the error raised. */
  datatype Result<+T, +E> = Ok(value: T) | Err(error: E)
}

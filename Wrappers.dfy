/** Option and Result, the two failure-carrying types the model uses. */
module Wrappers {

  /** A value that may be absent: Python's `Optional[...]`, where `None` is absence. */
  datatype Option<+T> = None | Some(value: T)

  /** A computation that either produced a value or raised an exception. */
  datatype Result<+T, +E> = Ok(value: T) | Failure(error: E)
}

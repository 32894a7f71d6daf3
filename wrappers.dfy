/** Result and Option values for the operations that raise in the source. */
module Wrappers {

  /** The outcome of an operation that may raise: a value, or the error it raises. */
  datatype Result<+R, +E> = Ok(value: R) | Err(error: E)

  /** An optional argument: `None` where the caller passed nothing (Python's `None` default). */
  datatype Option<+T> = None | Some(value: T)
}

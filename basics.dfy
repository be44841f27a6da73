/** Small shared vocabulary: optional values, results, bytes. */
module Basics {

  /** Python's `None` or a value. */
  datatype Option<T> = None | Some(value: T)

  /** The outcome of an operation that may raise instead of returning. */
  datatype Result<T, E> = Ok(value: T) | Err(error: E)

  /** One octet of a Python `bytes` object. */
  newtype byte = x: int | 0 <= x < 256
}

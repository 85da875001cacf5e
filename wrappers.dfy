/** Null-able values and failing computations, made explicit. */
module Wrappers {

  /** A value that may be missing: pandas' NaN in an object column. */
  datatype Option<+T> = None | Some(value: T)

  /** The exception a computation raises. */
  datatype Error = ValueError(message: string)

  /** Either a value or the exception raised while computing it. */
  datatype Result<+T> = Ok(value: T) | Err(error: Error)
}

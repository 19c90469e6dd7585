/** Small failure-carrying datatypes shared by the other modules. */
module Wrappers {

  /** A value that may be missing; stands for a Java reference that may be null. */
  datatype Option<T> = None | Some(value: T)

  /** The one exception kind the core raises on a caller's error
      (IllegalArgumentException in the original). An unreadable or
      malformed data file is reported as IOException. */
  datatype Error = IllegalArgument | IOError

  /** Either a result or the exception the original would throw. */
  datatype Result<T> = Ok(value: T) | Err(error: Error)
}

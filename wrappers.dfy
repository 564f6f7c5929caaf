/** Optional values and the failure results that stand for the exceptions
    thrown by the configuration object. */
module Wrappers {

  datatype Option<+T> = None | Some(value: T)

  /** The two exception classes the object can throw. */
  datatype Error =
    | InvalidArgument   // \InvalidArgumentException from a setter
    | RuntimeError      // \RuntimeException from the constructor

  datatype Result<+T> = Ok(value: T) | Err(error: Error)
}

/** Optional values, and results of operations that may throw. */
module Wrappers {
  datatype Option<+T> = None | Some(value: T)

  datatype Error = LogicError | RuntimeError | OutOfRange | AlreadyExists | NotFound

  datatype Result<+T> = Ok(value: T) | Err(error: Error)
}

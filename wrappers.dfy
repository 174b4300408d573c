/** Optional values (a C# reference that may be null) and results that may carry an error. */
module Wrappers {

  /** A value that may be missing; `None` stands for a C# `null`. */
  datatype Option<+T> = None | Some(value: T)

  /** The outcome of a call that may throw: `Err` names the exception. */
  datatype Result<+R, +E> = Ok(value: R) | Err(error: E)
}

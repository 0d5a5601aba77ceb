/** Option, Outcome and Result: the model's stand-ins for nullable pointers
    and for operations that either complete or throw. */
module Wrappers {

  /** A nullable value: `None` plays the part of `nullptr`. */
  datatype Option<+T> = None | Some(value: T)

  /** The result of an operation that returns normally or throws `error`. */
  datatype Outcome<+E> = Pass | Fail(error: E)

  /** A value, or the exception thrown instead of returning it. */
  datatype Result<+T, +E> = Ok(value: T) | Err(error: E)
}

/** Types and functions shared by the models. */
module Wrappers {

  datatype Option<+T> = None | Some(value: T)

  /** The outcome of a fallible operation: a value or an error. */
  datatype Result<+T, +E> = Ok(value: T) | Err(error: E)

  function Min(a: nat, b: nat): nat {
    if a < b then a else b
  }
}

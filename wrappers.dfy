/** Option and Result types, and the error kinds the relation raises. */
module Wrappers {

  datatype Option<+T> = None | Some(value: T)

  /** The exception classes the modelled code raises. */
  datatype Error =
    | RecordNotFound  // ActiveHash::RecordNotFound
    | ArgumentError   // ArgumentError from `order` or from a failed comparison in `sort!`
    | NoMethodError   // a method called on nil

  /** A value, or the exception raised while computing it. */
  datatype Result<+T> = Ok(value: T) | Err(error: Error)
}

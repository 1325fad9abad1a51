/** Option and Result, the two failure-carrying datatypes the model uses:
    Option stands for a JavaScript value that may be null or undefined,
    Result for a computation that may throw (the message is the exception's). */
module Wrappers {

  datatype Option<+T> = None | Some(value: T)

  datatype Result<+T> = Ok(value: T) | Err(message: string)
}

/** Exceptions raised by the modelled Blaze operations, as values. */
module Errors {
  /** The two standard exception kinds the modelled code throws, with their messages. */
  datatype Error =
    | InvalidArgument(msg: string)
    | OutOfRange(msg: string)

  /** Either a result or the exception the C++ code would have thrown. */
  datatype Result<T> = Ok(value: T) | Err(error: Error)
}

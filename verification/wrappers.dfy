/** Optional values and results with an error message, as used by the model of
    JavaScript's `undefined` and of the thrown errors of the application. */
module Wrappers {

  /** A value that may be absent (`undefined` in the source). */
  datatype Option<+T> = None | Some(value: T)

  /** Either a computed value or the message of the error the source throws. */
  datatype Result<+T> = Ok(value: T) | Err(message: string)
}

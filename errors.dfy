/** The error kinds of the codec and the result type its decoders return. */
module Errors {

  /** The two ways a decoder rejects its input. */
  datatype Error = InvalidHeader | InvalidQuestion

  /** A decoder either yields a value or names the error. */
  datatype Result<T> = Ok(value: T) | Err(error: Error)
}

/** Values shared by the encoders and the URL signer: octets and the two
    failure-carrying wrappers the signer returns. */
module Types {

  /** An octet, as Rust's `u8`. */
  type byte = b: int | 0 <= b < 256

  datatype Option<+T> = None | Some(value: T)

  datatype Result<+T, +E> = Ok(value: T) | Err(error: E)
}

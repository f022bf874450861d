/** Option and Result, the two failure-carrying wrappers the decoder uses. */
module Wrappers {

  /** Rust's `Option`: what `Chars::next` hands back. */
  datatype Option<+T> = None | Some(value: T)

  /** Rust's `Result`: a decoded value or the reason decoding stopped. */
  datatype Result<+T, +E> = Ok(value: T) | Err(error: E)
}

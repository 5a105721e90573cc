/** Option and Result as the Rust sources use them: every error in the crate is a `String`. */
module Wrappers {

  datatype Option<+T> = None | Some(value: T)

  datatype Result<+T> = Ok(value: T) | Err(error: string)

  /** Bytes as carried by `Vec<u8>` and `bytes::Bytes`. */
  newtype byte = x: int | 0 <= x < 256

  function Min(a: nat, b: nat): nat
  {
    if a <= b then a else b
  }
}

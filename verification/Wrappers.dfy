/** Types shared by the models of the tools. */
module Wrappers {

  datatype Option<+T> = None | Some(value: T)

  /** A Rust `Result`: the value of a call, or the error it returns early with. */
  datatype Result<+T, +E> = Ok(value: T) | Err(error: E)

  newtype byte = x: int | 0 <= x < 256

  newtype u16 = x: int | 0 <= x < 0x1_0000

  type Bytes = seq<byte>
}

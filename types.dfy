/** Value types shared by the model of `src/quic/common.rs`. */
module Types {

  /** An unsigned 8-bit integer, Rust's `u8`. */
  type byte = b: int | 0 <= b < 0x100

  /** Rust's `Option<T>`. */
  datatype Option<+T> = None | Some(value: T)

  /** Rust's `Result<T, E>`. */
  datatype Result<+T, +E> = Ok(value: T) | Err(error: E)
}

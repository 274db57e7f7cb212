/** Small value types shared by the other modules. */
module Wrappers {

  /** An optional value: a nullable pointer, a file that may not exist. */
  datatype Option<+T> = None | Some(value: T)

  /** An unsigned 8-bit value, as in a Rust `&[u8]`. */
  type Byte = x: int | 0 <= x < 0x100
}

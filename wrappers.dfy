/** Small shared vocabulary: optional values and bytes. */
module Wrappers {

  /** An absent or present value. */
  datatype Option<+T> = None | Some(value: T)

  /** One octet, as Rust's `u8`. */
  newtype byte = x: int | 0 <= x < 0x100
}

/** Octets, the `u8` of the Rust source. */
module Bytes {
  newtype Byte = x: int | 0 <= x < 0x100
}

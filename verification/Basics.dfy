/** What the modules share: optional values, and bytes as numbers or as vectors of bits. */
module Basics {

  datatype Option<+T> = None | Some(value: T)

  newtype Byte = b: int | 0 <= b < 256

  type Octet = bv8
}

/** Bytes, as numbers. */
module Octets {
  newtype Byte = x: int | 0 <= x < 256
  type Bytes = seq<Byte>

  /** A number below 256 fits eight bits. */
  lemma ByteValue(n: int)
    requires 0 <= n < 256
    ensures n as bv8 as int == n
  {
    // by cases on the upper bits
    if n < 16 {
    } else if n < 32 {
    } else if n < 64 {
    } else if n < 96 {
    } else if n < 128 {
    } else if n < 160 {
    } else if n < 192 {
    } else if n < 224 {
    } else {
    }
  }
}

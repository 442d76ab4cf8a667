/** Bytes as numbers, and little- and big-endian words of them. */
module Bytes {

  type Byte = n: int | 0 <= n < 256

  type Word = n: int | 0 <= n < 0x1_0000_0000
}

/** The input alphabet: the parser works on `&[u8]`, one byte at a time. */
module Bytes {

  newtype byte = b: int | 0 <= b < 256
}

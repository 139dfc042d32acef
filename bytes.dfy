/** Octets: PHP strings are byte strings, and the transport encoder works on them. */
module Bytes {

  newtype byte = b: int | 0 <= b < 0x100
}

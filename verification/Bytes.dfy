/** Bytes, and the integers they hold. */
module Bytes {

  newtype byte = n: int | 0 <= n < 0x100

  function ByteOf(n: int): (b: byte)
    requires 0 <= n < 256
    ensures b as int == n
  {
    n as byte
  }
}

/** Bytes as eight-bit words. */
module Bytes {

  type byte = bv8

  lemma NextByte(b: byte)
    requires b < 255
    ensures (b + 1) as nat == b as nat + 1
  {
  }

  /** The byte with a value. */
  function ByteWith(x: nat): (b: byte)
    requires x < 256
    ensures b as nat == x
  {
    if x == 0 then 0
    else
      NextByte(ByteWith(x - 1));
      ByteWith(x - 1) + 1
  }

  /** The conversion of an int to unsigned char. */
  function LowByte(x: int): (b: byte)
    ensures b as nat == x % 256
  {
    ByteWith(x % 256)
  }
}

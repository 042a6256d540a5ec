/** Bytes as bit vectors and as numbers. */
module Octets {

  type byte = bv8

  type bytes = seq<byte>

  lemma ByteRoundTrip(n: int)
    requires 0 <= n < 256
    ensures (n as byte) as int == n
  {
  }

  /** b << 1 with a low bit, and b >> 7, as arithmetic. */
  lemma ShiftedByte(b: byte, c: byte)
    requires c <= 1
    ensures ((b << 1) | c) as int == (2 * (b as int)) % 256 + c as int
    ensures (b >> 7) as int == b as int / 128
  {
  }

  /** The size-prefix bits: seven of payload and one continuation mark. */
  lemma SevenBits(b: byte)
    ensures (b & 0x7F) as nat == b as nat % 128
    ensures b & 0x80 != 0 <==> b as nat >= 128
  {
  }

  lemma MarkKeepsLow(b: byte)
    ensures (b | 0x80) & 0x80 != 0 && (b | 0x80) & 0x7F == b & 0x7F
  {
  }

  lemma LowBitsDecide(b: byte, c: byte)
    requires (b & 0x7F) as nat == (c & 0x7F) as nat
    ensures b & 0x7F == c & 0x7F
  {
    assert ((b & 0x7F) as int) as byte == ((c & 0x7F) as int) as byte;
  }

  lemma MarkRestores(b: byte, c: byte)
    requires b & 0x80 != 0 && b & 0x7F == c & 0x7F
    ensures c | 0x80 == b
  {
  }

  lemma VersionNumber(b: byte)
    ensures (b as nat < 41 <==> b < 41) && (b as nat == 38 <==> b == 38)
  {
  }

  lemma SmallByte(b: byte)
    requires b as nat <= 10
    ensures b < 38
  {
  }
}

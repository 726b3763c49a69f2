/** The compressor's hash of three bytes. */
module FastLzHash {
  import opened Bytes

  const HASH_SIZE: nat := 8192

  function ReadU16(low: byte, high: byte): (v: bv16)
  {
    low as bv16 | ((high as bv16) << 8)
  }

  function Hash(b0: byte, b1: byte, b2: byte): (h: nat)
    ensures h < HASH_SIZE
  {
    var v := ReadU16(b0, b1);
    var mixed := (v ^ (ReadU16(b1, b2) ^ (v >> 3))) & 0x1FFF;
    assert mixed < 0x2000;
    mixed as nat
  }

  /** What single bits and all bits come to. */
  lemma HashValues()
    ensures Hash(1, 0, 0) == 1 && Hash(8, 0, 0) == 9 && Hash(0, 1, 0) == 289 && Hash(0, 0, 1) == 256
    ensures Hash(255, 255, 255) == 8191 && Hash(0x61, 0x62, 0x63) == 0x0D4F
  {
  }
}

/** Bytes as the models of byte buffers see them. */
module Octets {

  type Byte = b: int | 0 <= b < 256

  /** A byte as a bit vector is the byte. */
  lemma ByteToBits(b: Byte)
    ensures (b as bv8) as int == b
  {
    if b < 64 {
      if b < 32 { Bits0(b); } else { Bits32(b); }
    } else if b < 128 {
      if b < 96 { Bits64(b); } else { Bits96(b); }
    } else if b < 192 {
      if b < 160 { Bits128(b); } else { Bits160(b); }
    } else {
      if b < 224 { Bits192(b); } else { Bits224(b); }
    }
  }

  lemma BitsToByte(b: bv8)
    ensures (b as int) as bv8 == b
  {}

  lemma Bits0(b: int)
    requires 0 <= b < 32
    ensures (b as bv8) as int == b
  {}

  lemma Bits32(b: int)
    requires 32 <= b < 64
    ensures (b as bv8) as int == b
  {}

  lemma Bits64(b: int)
    requires 64 <= b < 96
    ensures (b as bv8) as int == b
  {}

  lemma Bits96(b: int)
    requires 96 <= b < 128
    ensures (b as bv8) as int == b
  {}

  lemma Bits128(b: int)
    requires 128 <= b < 160
    ensures (b as bv8) as int == b
  {}

  lemma Bits160(b: int)
    requires 160 <= b < 192
    ensures (b as bv8) as int == b
  {}

  lemma Bits192(b: int)
    requires 192 <= b < 224
    ensures (b as bv8) as int == b
  {}

  lemma Bits224(b: int)
    requires 224 <= b < 256
    ensures (b as bv8) as int == b
  {}
}

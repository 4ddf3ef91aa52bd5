/** Bits of bytes and symbols, most significant first, and the shifts the codecs use.
    The shift amounts are spelled out so that every shift is by a literal. */
module Bits {

  function Shr(x: bv16, k: nat): bv16
    requires k < 8
  {
    if k == 0 then x else if k == 1 then x >> 1 else if k == 2 then x >> 2 else if k == 3 then x >> 3
    else if k == 4 then x >> 4 else if k == 5 then x >> 5 else if k == 6 then x >> 6 else x >> 7
  }

  function Shl(x: bv16, k: nat): bv16
    requires k < 8
  {
    if k == 0 then x else if k == 1 then x << 1 else if k == 2 then x << 2 else if k == 3 then x << 3
    else if k == 4 then x << 4 else if k == 5 then x << 5 else if k == 6 then x << 6 else x << 7
  }

  /** Bit k of a byte, counted from the most significant. */
  predicate ByteBit(b: bv8, k: nat)
    requires k < 8
  {
    if k == 0 then b & 0x80 != 0 else if k == 1 then b & 0x40 != 0
    else if k == 2 then b & 0x20 != 0 else if k == 3 then b & 0x10 != 0
    else if k == 4 then b & 0x08 != 0 else if k == 5 then b & 0x04 != 0
    else if k == 6 then b & 0x02 != 0 else b & 0x01 != 0
  }

  /** A five-bit symbol. */
  type Sym = bv5

  /** Bit k of a symbol, counted from the most significant. */
  predicate SymBit(s: Sym, k: nat)
    requires k < 5
  {
    if k == 0 then s & 16 != 0 else if k == 1 then s & 8 != 0
    else if k == 2 then s & 4 != 0 else if k == 3 then s & 2 != 0 else s & 1 != 0
  }

  function SymBits(s: Sym): (bits: seq<bool>)
    ensures |bits| == 5
    ensures forall k: nat | k < 5 :: bits[k] == SymBit(s, k)
  {
    [SymBit(s, 0), SymBit(s, 1), SymBit(s, 2), SymBit(s, 3), SymBit(s, 4)]
  }

  /** Bit i of a byte sequence read as one string of bits. */
  predicate BitAt(bytes: seq<bv8>, i: nat)
    requires i < 8 * |bytes|
  {
    ByteBit(bytes[i / 8], i % 8)
  }

  /** The first n bits of a byte sequence. */
  function BitsOf(bytes: seq<bv8>, n: nat): (bits: seq<bool>)
    requires n <= 8 * |bytes|
    ensures |bits| == n
  {
    seq(n, i requires 0 <= i < n => BitAt(bytes, i))
  }

  /** The symbol whose leading bits are w, padded with zeros. */
  function Pack(w: seq<bool>): Sym {
    PackBit(w, 0, 16) | PackBit(w, 1, 8) | PackBit(w, 2, 4) | PackBit(w, 3, 2) | PackBit(w, 4, 1)
  }

  function PackBit(w: seq<bool>, k: nat, m: Sym): Sym {
    if k < |w| && w[k] then m else 0
  }

  lemma PackBits(w: seq<bool>, k: nat)
    requires k < 5
    ensures SymBit(Pack(w), k) == (k < |w| && w[k])
  {}

  lemma SymExtensional(a: Sym, b: Sym)
    requires forall k: nat | k < 5 :: SymBit(a, k) == SymBit(b, k)
    ensures a == b
  {
    assert SymBit(a, 0) == SymBit(b, 0) && SymBit(a, 1) == SymBit(b, 1) && SymBit(a, 2) == SymBit(b, 2);
    assert SymBit(a, 3) == SymBit(b, 3) && SymBit(a, 4) == SymBit(b, 4);
  }
}

/** CRC-32 with the USB constants (common/crc.c): the table-driven loop against polynomial
    division, as the frame check sequence of section 3.2.9 of IEEE 802.3 defines it. */
module Crc32 {
  import opened Gf2
  import opened Crc32Table

  /** The lower coefficients of x^w + ... with the given powers present. */
  function Generator(w: nat, powers: set<nat>): (p: Poly)
    ensures |p| == w
  {
    seq(w, i requires 0 <= i < w => (w - 1 - i) in powers)
  }

  const IEEE: Poly := Generator(32, {26, 23, 22, 16, 12, 11, 10, 8, 7, 5, 4, 2, 1, 0})

  function Mask(i: nat): bv32 {
    if i == 0 then 0x1 else if i == 1 then 0x2 else if i == 2 then 0x4 else
    if i == 3 then 0x8 else if i == 4 then 0x10 else if i == 5 then 0x20 else
    if i == 6 then 0x40 else if i == 7 then 0x80 else if i == 8 then 0x100 else
    if i == 9 then 0x200 else if i == 10 then 0x400 else if i == 11 then 0x800 else
    if i == 12 then 0x1000 else if i == 13 then 0x2000 else if i == 14 then 0x4000 else
    if i == 15 then 0x8000 else if i == 16 then 0x10000 else if i == 17 then 0x20000 else
    if i == 18 then 0x40000 else if i == 19 then 0x80000 else if i == 20 then 0x100000 else
    if i == 21 then 0x200000 else if i == 22 then 0x400000 else if i == 23 then 0x800000 else
    if i == 24 then 0x1000000 else if i == 25 then 0x2000000 else if i == 26 then 0x4000000 else
    if i == 27 then 0x8000000 else if i == 28 then 0x10000000 else if i == 29 then 0x20000000 else
    if i == 30 then 0x40000000 else
    0x80000000
  }

  /** Bit i of a register, counted from the least significant. */
  predicate BitOf(x: bv32, i: nat) {
    x & Mask(i) != 0
  }

  /** The reflected register as a polynomial: its lowest bit is the highest coefficient. */
  function View(x: bv32): (v: Poly)
    ensures |v| == 32
  {
    seq(32, i requires 0 <= i < 32 => BitOf(x, i))
  }

  /** The bits of a byte in the order they are sent: least significant first. */
  function ByteBits(b: bv8): (m: Poly)
    ensures |m| == 8
  {
    View(b as bv32)[..8]
  }

  function MessageBits(buf: seq<bv8>): (m: Poly)
    ensures |m| == 8 * |buf|
  {
    if buf == [] then [] else ByteBits(buf[0]) + MessageBits(buf[1..])
  }

  /** One byte of the loop body (lines 66-67). */
  function HashByte(crc: bv32, b: bv8): bv32 {
    Lookup(crc ^ (b as bv32))
  }

  function Lookup(x: bv32): bv32 {
    Table((x & 0xFF) as bv8) ^ (x >> 8)
  }

  function Hash(crc: bv32, buf: seq<bv8>): bv32
    decreases |buf|
  {
    if buf == [] then crc else Hash(HashByte(crc, buf[0]), buf[1..])
  }

  // ----- Registers as polynomials -----

  lemma MaskOneHot(i: nat)
    requires i < 32
    ensures Mask(i) != 0 && Mask(i) & (Mask(i) - 1) == 0
  {
    if i == 0 {} else if i == 1 {} else if i == 2 {} else if i == 3 {} else
    if i == 4 {} else if i == 5 {} else if i == 6 {} else if i == 7 {} else
    if i == 8 {} else if i == 9 {} else if i == 10 {} else if i == 11 {} else
    if i == 12 {} else if i == 13 {} else if i == 14 {} else if i == 15 {} else
    if i == 16 {} else if i == 17 {} else if i == 18 {} else if i == 19 {} else
    if i == 20 {} else if i == 21 {} else if i == 22 {} else if i == 23 {} else
    if i == 24 {} else if i == 25 {} else if i == 26 {} else if i == 27 {} else
    if i == 28 {} else if i == 29 {} else if i == 30 {} else {}
  }

  lemma XorMasked(x: bv32, y: bv32, m: bv32)
    requires m != 0 && m & (m - 1) == 0
    ensures ((x ^ y) & m != 0) == ((x & m != 0) != (y & m != 0))
  {}

  lemma ShiftTop(x: bv32)
    ensures !BitOf(x >> 1, 31)
  {}

  lemma BitOfShift(x: bv32, i: nat)
    requires i < 31
    ensures BitOf(x >> 1, i) == BitOf(x, i + 1)
  {
    if i == 0 {} else if i == 1 {} else if i == 2 {} else if i == 3 {} else
    if i == 4 {} else if i == 5 {} else if i == 6 {} else if i == 7 {} else
    if i == 8 {} else if i == 9 {} else if i == 10 {} else if i == 11 {} else
    if i == 12 {} else if i == 13 {} else if i == 14 {} else if i == 15 {} else
    if i == 16 {} else if i == 17 {} else if i == 18 {} else if i == 19 {} else
    if i == 20 {} else if i == 21 {} else if i == 22 {} else if i == 23 {} else
    if i == 24 {} else if i == 25 {} else if i == 26 {} else if i == 27 {} else if i == 28 {} else if i == 29 {} else {}
  }

  lemma BitOfXor(x: bv32, y: bv32, i: nat)
    requires i < 32
    ensures BitOf(x ^ y, i) == (BitOf(x, i) != BitOf(y, i))
  {
    hide Mask;
    MaskOneHot(i);
    XorMasked(x, y, Mask(i));
  }

  lemma GeneratorIsIeee(i: nat)
    requires i < 32
    ensures BitOf(0xEDB88320, i) == IEEE[i]
  {
    if i == 0 {} else if i == 1 {} else if i == 2 {} else if i == 3 {} else
    if i == 4 {} else if i == 5 {} else if i == 6 {} else if i == 7 {} else
    if i == 8 {} else if i == 9 {} else if i == 10 {} else if i == 11 {} else
    if i == 12 {} else if i == 13 {} else if i == 14 {} else if i == 15 {} else
    if i == 16 {} else if i == 17 {} else if i == 18 {} else if i == 19 {} else
    if i == 20 {} else if i == 21 {} else if i == 22 {} else if i == 23 {} else
    if i == 24 {} else if i == 25 {} else if i == 26 {} else if i == 27 {} else
    if i == 28 {} else if i == 29 {} else if i == 30 {} else {}
  }

  lemma BitOfOnes(i: nat)
    requires i < 32
    ensures BitOf(0xFFFFFFFF, i)
  {
    if i == 0 {} else if i == 1 {} else if i == 2 {} else if i == 3 {} else
    if i == 4 {} else if i == 5 {} else if i == 6 {} else if i == 7 {} else
    if i == 8 {} else if i == 9 {} else if i == 10 {} else if i == 11 {} else
    if i == 12 {} else if i == 13 {} else if i == 14 {} else if i == 15 {} else
    if i == 16 {} else if i == 17 {} else if i == 18 {} else if i == 19 {} else
    if i == 20 {} else if i == 21 {} else if i == 22 {} else if i == 23 {} else
    if i == 24 {} else if i == 25 {} else if i == 26 {} else if i == 27 {} else
    if i == 28 {} else if i == 29 {} else if i == 30 {} else {}
  }

  lemma HighMask(b: bv8, m: bv32)
    requires m & 0xFF == 0
    ensures (b as bv32) & m == 0
  {}

  lemma LowMask(x: bv32, y: bv32, m: bv32)
    requires y == x & 0xFF && m & 0xFF == m
    ensures y & m == x & m
  {}

  lemma MaskHigh(i: nat)
    requires i < 32
    ensures if i < 8 then Mask(i) & 0xFF == Mask(i) else Mask(i) & 0xFF == 0
  {
    if i == 0 {} else if i == 1 {} else if i == 2 {} else if i == 3 {} else
    if i == 4 {} else if i == 5 {} else if i == 6 {} else if i == 7 {} else
    if i == 8 {} else if i == 9 {} else if i == 10 {} else if i == 11 {} else
    if i == 12 {} else if i == 13 {} else if i == 14 {} else if i == 15 {} else
    if i == 16 {} else if i == 17 {} else if i == 18 {} else if i == 19 {} else
    if i == 20 {} else if i == 21 {} else if i == 22 {} else if i == 23 {} else
    if i == 24 {} else if i == 25 {} else if i == 26 {} else if i == 27 {} else
    if i == 28 {} else if i == 29 {} else if i == 30 {} else {}
  }

  lemma ViewShift(x: bv32)
    ensures View(x >> 1) == View(x)[1..] + [false]
  {
    hide BitOf;
    ShiftTop(x);
    forall i: nat | i < 32 ensures View(x >> 1)[i] == (View(x)[1..] + [false])[i] {
      if i < 31 {
        BitOfShift(x, i);
      }
    }
  }

  lemma {:induction false} ViewShiftBy(x: bv32, n: nat)
    requires n <= 8
    ensures View(ShiftBy(x, n)) == View(x)[n..] + Zeros(n)
    decreases n
  {
    hide View;
    if n > 0 {
      ViewShift(x);
      ViewShiftBy(x >> 1, n - 1);
      assert Zeros(n) == [false] + Zeros(n - 1);
      assert (View(x)[1..] + [false])[n - 1..] == View(x)[n..] + [false];
    }
  }

  function ShiftBy(x: bv32, n: nat): bv32
    decreases n
  {
    if n == 0 then x else ShiftBy(x >> 1, n - 1)
  }

  lemma ShiftBy8(x: bv32)
    ensures ShiftBy(x, 8) == x >> 8
  {}

  lemma ViewShift8(x: bv32)
    ensures View(x >> 8) == View(x)[8..] + Zeros(8)
  {
    hide View;
    ShiftBy8(x);
    ViewShiftBy(x, 8);
  }

  lemma ViewXor(x: bv32, y: bv32)
    ensures View(x ^ y) == Xor(View(x), View(y))
  {
    hide BitOf;
    forall i: nat | i < 32 ensures View(x ^ y)[i] == Xor(View(x), View(y))[i] {
      BitOfXor(x, y, i);
    }
  }

  lemma ViewGenerator()
    ensures View(0xEDB88320) == IEEE
  {
    hide BitOf;
    forall i: nat | i < 32 ensures View(0xEDB88320)[i] == IEEE[i] {
      GeneratorIsIeee(i);
    }
  }

  lemma ViewOnes()
    ensures View(0xFFFFFFFF) == Ones(32)
  {
    hide BitOf;
    forall i: nat | i < 32 ensures View(0xFFFFFFFF)[i] == Ones(32)[i] {
      BitOfOnes(i);
    }
  }

  lemma ViewByte(b: bv8)
    ensures View(b as bv32) == ByteBits(b) + Zeros(24)
  {
    hide Mask;
    forall i: nat | i < 32 ensures View(b as bv32)[i] == (ByteBits(b) + Zeros(24))[i] {
      if i >= 8 {
        MaskHigh(i);
        HighMask(b, Mask(i));
      }
    }
  }

  lemma CastLowByte(x: bv32, low: bv8)
    requires low == (x & 0xFF) as bv8
    ensures low as bv32 == x & 0xFF
  {}

  lemma ViewLowByte(x: bv32, low: bv8)
    requires low as bv32 == x & 0xFF
    ensures ByteBits(low) == View(x)[..8]
  {
    hide Mask;
    forall i: nat | i < 8 ensures ByteBits(low)[i] == View(x)[..8][i] {
      MaskHigh(i);
      LowMask(x, low as bv32, Mask(i));
    }
  }

  lemma ViewTop(x: bv32)
    ensures View(x)[0] == (x & 1 == 1)
  {}

  // ----- The table-driven loop is polynomial division -----

  lemma BitIsMul(x: bv32)
    ensures View(Bit(x)) == Mul(View(x), IEEE)
  {
    ViewTop(x);
    hide BitOf, View, IEEE;
    ViewShift(x);
    ViewXor(x >> 1, 0xEDB88320);
    ViewGenerator();
  }

  lemma {:induction false} StepsAreFeed(x: bv32, n: nat)
    ensures View(Steps(x, n)) == FeedAll(View(x), Zeros(n), IEEE)
    decreases n
  {
    hide Bit, View, Mul, Zeros, IEEE;
    if n > 0 {
      BitIsMul(x);
      FeedZero(View(x), n, IEEE);
      StepsAreFeed(Bit(x), n - 1);
    }
  }

  /** A register whose first n coefficients are zero is only shifted by n zero bits. */
  lemma {:induction false} FeedClear(r: Poly, n: nat, p: Poly)
    requires |r| == |p| > 0 && n <= |p|
    requires forall i | 0 <= i < n :: !r[i]
    ensures FeedAll(r, Zeros(n), p) == r[n..] + Zeros(n)
    decreases n
  {
    if n > 0 {
      var s := r[1..] + [false];
      assert Mul(r, p) == s;
      FeedZero(r, n, p);
      assert forall i | 0 <= i < n - 1 :: s[i] == r[i + 1];
      FeedClear(s, n - 1, p);
      assert s[n - 1..] + Zeros(n - 1) == r[n..] + Zeros(n);
    }
  }

  lemma {:induction false} FeedZerosLinear(r: Poly, s: Poly, n: nat, p: Poly)
    requires |r| == |s| == |p| > 0
    ensures FeedAll(Xor(r, s), Zeros(n), p) == Xor(FeedAll(r, Zeros(n), p), FeedAll(s, Zeros(n), p))
    decreases n
  {
    if n > 0 {
      hide Mul;
      FeedZero(r, n, p);
      FeedZero(s, n, p);
      FeedZero(Xor(r, s), n, p);
      MulLinear(r, s, p);
      FeedZerosLinear(Mul(r, p), Mul(s, p), n - 1, p);
    }
  }

  /** The low byte goes through the table, the rest is shifted. */
  lemma TableStep(x: bv32)
    ensures View(Lookup(x)) == FeedAll(View(x), Zeros(8), IEEE)
  {
    hide View, IEEE, Table, Steps, Mul, FeedAll, ByteBits;
    var low := (x & 0xFF) as bv8;
    var v := View(x);
    var a, b := ByteBits(low) + Zeros(24), Zeros(8) + v[8..];
    ViewXor(Table(low), x >> 8);
    TableIsDivision(low);
    StepsAreFeed(low as bv32, 8);
    ViewByte(low);
    ViewShift8(x);
    FeedClear(b, 8, IEEE);
    assert b[8..] == v[8..];
    CastLowByte(x, low);
    ViewLowByte(x, low);
    assert v == Xor(a, b);
    FeedZerosLinear(a, b, 8, IEEE);
  }

  /** One byte of the loop is eight message bits fed to the register. */
  lemma HashByteIsFeed(crc: bv32, b: bv8)
    ensures View(HashByte(crc, b)) == FeedAll(View(crc), ByteBits(b), IEEE)
  {
    hide View, ByteBits, IEEE, Lookup, FeedAll, Xor;
    TableStep(crc ^ (b as bv32));
    ViewXor(crc, b as bv32);
    ViewByte(b);
    FeedBlock(View(crc), ByteBits(b), IEEE);
  }

  /** The loop over a buffer is polynomial division of its bits, from any register. */
  lemma {:induction false} HashIsFeed(crc: bv32, buf: seq<bv8>)
    ensures View(Hash(crc, buf)) == FeedAll(View(crc), MessageBits(buf), IEEE)
    decreases |buf|
  {
    hide BitOf, View, ByteBits, IEEE, HashByte;
    if buf == [] {
    } else {
      HashByteIsFeed(crc, buf[0]);
      HashIsFeed(HashByte(crc, buf[0]), buf[1..]);
      FeedAllSplit(View(crc), ByteBits(buf[0]), MessageBits(buf[1..]), IEEE);
    }
  }

  function Ones(n: nat): (o: Poly)
    ensures |o| == n
  {
    seq(n, _ => true)
  }

  /** Section 3.2.9 of IEEE 802.3: the first 32 bits complemented, times x^32, divided by the
      generator, and the remainder complemented. */
  function FrameCheck(m: Poly): (f: Poly)
    ensures |f| == 32
  {
    Xor(Rem(Zeros(32), Xor(Ones(32) + Zeros(|m|), m + Zeros(32)), IEEE), Ones(32))
  }

  /** A register that holds the division of m from all ones: its complement is the frame
      check sequence. */
  lemma ResultIsFrameCheck(crc: bv32, m: Poly, r: bv32)
    requires View(crc) == FeedAll(Ones(32), m, IEEE) && r == crc ^ 0xFFFFFFFF
    ensures View(r) == FrameCheck(m)
  {
    hide BitOf, View, IEEE, Ones, Rem, Xor, FeedAll;
    ViewOnes();
    ViewXor(crc, 0xFFFFFFFF);
    RegisterIsRemainder(Ones(32), m, IEEE);
  }

  /** Any split into chunks gives the same register. */
  lemma {:induction false} HashSplit(crc: bv32, a: seq<bv8>, b: seq<bv8>)
    ensures Hash(crc, a + b) == Hash(Hash(crc, a), b)
    decreases |a|
  {
    hide HashByte;
    if a == [] {
      assert a + b == b;
    } else {
      assert (a + b)[1..] == a[1..] + b;
      HashSplit(HashByte(crc, a[0]), a[1..], b);
    }
  }

  // ----- What the check guarantees -----

  /** The bytes of a value as the machine stores it, least significant first. */
  function LittleEndian32(x: bv32): (buf: seq<bv8>)
    ensures |buf| == 4
  {
    var x1 := x >> 8;
    var x2 := x1 >> 8;
    var x3 := x2 >> 8;
    [(x & 0xFF) as bv8, (x1 & 0xFF) as bv8, (x2 & 0xFF) as bv8, (x3 & 0xFF) as bv8]
  }

  function LittleEndian16(x: bv16): (buf: seq<bv8>)
    ensures |buf| == 2
  {
    [(x & 0xFF) as bv8, ((x >> 8) & 0xFF) as bv8]
  }

  lemma MessageBits4(a: bv8, b: bv8, c: bv8, d: bv8)
    ensures MessageBits([a, b, c, d]) == ByteBits(a) + (ByteBits(b) + (ByteBits(c) + (ByteBits(d) + [])))
  {
    hide ByteBits;
    assert MessageBits([d]) == ByteBits(d) + [];
    assert [c, d][1..] == [d] && MessageBits([c, d]) == ByteBits(c) + MessageBits([d]);
    assert [b, c, d][1..] == [c, d] && MessageBits([b, c, d]) == ByteBits(b) + MessageBits([c, d]);
    assert [a, b, c, d][1..] == [b, c, d];
  }

  lemma StoredByte(x: bv32, low: bv8)
    requires low == (x & 0xFF) as bv8
    ensures ByteBits(low) == View(x)[..8]
  {
    hide View, ByteBits;
    CastLowByte(x, low);
    ViewLowByte(x, low);
  }

  lemma StoredBits(x: bv32)
    ensures MessageBits(LittleEndian32(x)) == View(x)
  {
    hide View, ByteBits, MessageBits;
    var buf := LittleEndian32(x);
    var x1 := x >> 8;
    var x2 := x1 >> 8;
    var x3 := x2 >> 8;
    MessageBits4(buf[0], buf[1], buf[2], buf[3]);
    StoredByte(x, buf[0]);
    StoredByte(x1, buf[1]);
    StoredByte(x2, buf[2]);
    StoredByte(x3, buf[3]);
    ViewShift8(x);
    ViewShift8(x1);
    ViewShift8(x2);
    Quarters(View(x), View(x1), View(x2), View(x3));
  }

  lemma Quarters(v: Poly, v1: Poly, v2: Poly, v3: Poly)
    requires |v| == |v1| == |v2| == |v3| == 32
    requires v1 == v[8..] + Zeros(8) && v2 == v1[8..] + Zeros(8) && v3 == v2[8..] + Zeros(8)
    ensures v[..8] + (v1[..8] + (v2[..8] + (v3[..8] + []))) == v
  {
    assert v1[..8] == v[8..16];
    assert v2[..8] == v1[8..16] == v[16..24];
    assert v3[..8] == v2[8..16] == v1[16..24] == v[24..32];
  }

  lemma {:induction false} MessageBitsSplit(a: seq<bv8>, b: seq<bv8>)
    ensures MessageBits(a + b) == MessageBits(a) + MessageBits(b)
    decreases |a|
  {
    hide ByteBits;
    if a == [] {
      assert a + b == b;
    } else {
      assert (a + b)[1..] == a[1..] + b;
      MessageBitsSplit(a[1..], b);
    }
  }

  lemma {:induction false} StepsSplit(x: bv32, m: nat, n: nat)
    ensures Steps(x, m + n) == Steps(Steps(x, m), n)
    decreases m
  {
    hide Bit;
    if m > 0 {
      StepsSplit(Bit(x), m - 1, n);
    }
  }

  lemma ResidueBytes()
    ensures Steps(0xFFFFFFFF, 8) == 0x2DFD1072
    ensures Steps(0x2DFD1072, 8) == 0xBE26ED00
  {}

  lemma ResidueBytes2()
    ensures Steps(0xBE26ED00, 8) == 0x00BE26ED
    ensures Steps(0x00BE26ED, 8) == 0xDEBB20E3
  {}

  lemma ResidueConstant()
    ensures Steps(0xFFFFFFFF, 32) == 0xDEBB20E3
  {
    hide Steps;
    StepsSplit(0xFFFFFFFF, 8, 24);
    StepsSplit(0x2DFD1072, 8, 16);
    StepsSplit(0xBE26ED00, 8, 8);
    ResidueBytes();
    ResidueBytes2();
  }

  lemma SameByte0(x: bv32, y: bv32)
    requires (x & 0x1 != 0) == (y & 0x1 != 0) && (x & 0x2 != 0) == (y & 0x2 != 0)
    requires (x & 0x4 != 0) == (y & 0x4 != 0) && (x & 0x8 != 0) == (y & 0x8 != 0)
    requires (x & 0x10 != 0) == (y & 0x10 != 0) && (x & 0x20 != 0) == (y & 0x20 != 0)
    requires (x & 0x40 != 0) == (y & 0x40 != 0) && (x & 0x80 != 0) == (y & 0x80 != 0)
    ensures x & 0xff == y & 0xff
  {}

  lemma SameByte1(x: bv32, y: bv32)
    requires (x & 0x100 != 0) == (y & 0x100 != 0) && (x & 0x200 != 0) == (y & 0x200 != 0)
    requires (x & 0x400 != 0) == (y & 0x400 != 0) && (x & 0x800 != 0) == (y & 0x800 != 0)
    requires (x & 0x1000 != 0) == (y & 0x1000 != 0) && (x & 0x2000 != 0) == (y & 0x2000 != 0)
    requires (x & 0x4000 != 0) == (y & 0x4000 != 0) && (x & 0x8000 != 0) == (y & 0x8000 != 0)
    ensures x & 0xff00 == y & 0xff00
  {}

  lemma SameByte2(x: bv32, y: bv32)
    requires (x & 0x10000 != 0) == (y & 0x10000 != 0) && (x & 0x20000 != 0) == (y & 0x20000 != 0)
    requires (x & 0x40000 != 0) == (y & 0x40000 != 0) && (x & 0x80000 != 0) == (y & 0x80000 != 0)
    requires (x & 0x100000 != 0) == (y & 0x100000 != 0) && (x & 0x200000 != 0) == (y & 0x200000 != 0)
    requires (x & 0x400000 != 0) == (y & 0x400000 != 0) && (x & 0x800000 != 0) == (y & 0x800000 != 0)
    ensures x & 0xff0000 == y & 0xff0000
  {}

  lemma SameByte3(x: bv32, y: bv32)
    requires (x & 0x1000000 != 0) == (y & 0x1000000 != 0) && (x & 0x2000000 != 0) == (y & 0x2000000 != 0)
    requires (x & 0x4000000 != 0) == (y & 0x4000000 != 0) && (x & 0x8000000 != 0) == (y & 0x8000000 != 0)
    requires (x & 0x10000000 != 0) == (y & 0x10000000 != 0) && (x & 0x20000000 != 0) == (y & 0x20000000 != 0)
    requires (x & 0x40000000 != 0) == (y & 0x40000000 != 0) && (x & 0x80000000 != 0) == (y & 0x80000000 != 0)
    ensures x & 0xff000000 == y & 0xff000000
  {}

  lemma SameBytes(x: bv32, y: bv32)
    requires x & 0xff == y & 0xff && x & 0xff00 == y & 0xff00
    requires x & 0xff0000 == y & 0xff0000 && x & 0xff000000 == y & 0xff000000
    ensures x == y
  {}

  lemma SameBit(x: bv32, y: bv32, i: nat)
    requires View(x) == View(y) && i < 32
    ensures BitOf(x, i) == BitOf(y, i)
  {
    hide BitOf;
    assert View(x)[i] == View(y)[i];
  }

  lemma SameViewByte0(x: bv32, y: bv32)
    requires View(x) == View(y)
    ensures x & 0xff == y & 0xff
  {
    hide View;
    SameBit(x, y, 0); SameBit(x, y, 1); SameBit(x, y, 2); SameBit(x, y, 3);
    SameBit(x, y, 4); SameBit(x, y, 5); SameBit(x, y, 6); SameBit(x, y, 7);
    SameByte0(x, y);
  }

  lemma SameViewByte1(x: bv32, y: bv32)
    requires View(x) == View(y)
    ensures x & 0xff00 == y & 0xff00
  {
    hide View;
    SameBit(x, y, 8); SameBit(x, y, 9); SameBit(x, y, 10); SameBit(x, y, 11);
    SameBit(x, y, 12); SameBit(x, y, 13); SameBit(x, y, 14); SameBit(x, y, 15);
    SameByte1(x, y);
  }

  lemma SameViewByte2(x: bv32, y: bv32)
    requires View(x) == View(y)
    ensures x & 0xff0000 == y & 0xff0000
  {
    hide View;
    SameBit(x, y, 16); SameBit(x, y, 17); SameBit(x, y, 18); SameBit(x, y, 19);
    SameBit(x, y, 20); SameBit(x, y, 21); SameBit(x, y, 22); SameBit(x, y, 23);
    SameByte2(x, y);
  }

  lemma SameViewByte3(x: bv32, y: bv32)
    requires View(x) == View(y)
    ensures x & 0xff000000 == y & 0xff000000
  {
    hide View;
    SameBit(x, y, 24); SameBit(x, y, 25); SameBit(x, y, 26); SameBit(x, y, 27);
    SameBit(x, y, 28); SameBit(x, y, 29); SameBit(x, y, 30); SameBit(x, y, 31);
    SameByte3(x, y);
  }

  lemma ViewInjective(x: bv32, y: bv32)
    requires View(x) == View(y)
    ensures x == y
  {
    hide View;
    SameViewByte0(x, y);
    SameViewByte1(x, y);
    SameViewByte2(x, y);
    SameViewByte3(x, y);
    SameBytes(x, y);
  }

  /** A receiver that hashes a message and then its check sequence always ends in the same
      register, whatever the message was. */
  lemma ReceiverResidue(crc: bv32)
    ensures Hash(crc, LittleEndian32(crc ^ 0xFFFFFFFF)) == 0xDEBB20E3
  {
    hide View, IEEE, Steps, Hash, FeedAll;
    var sent := LittleEndian32(crc ^ 0xFFFFFFFF);
    HashIsFeed(crc, sent);
    StoredBits(crc ^ 0xFFFFFFFF);
    ViewXor(crc, 0xFFFFFFFF);
    ViewOnes();
    FeedBlock(View(crc), View(crc ^ 0xFFFFFFFF), IEEE);
    assert Xor(View(crc), Xor(View(crc), Ones(32)) + Zeros(0)) == Ones(32);
    StepsAreFeed(0xFFFFFFFF, 32);
    ResidueConstant();
    ViewInjective(Hash(crc, sent), 0xDEBB20E3);
  }

  /** Two messages that differ only inside 32 consecutive bits never have the same check. */
  lemma BurstChangesCheck(crc: bv32, a: seq<bv8>, b: seq<bv8>, pre: Poly, x: Poly, y: Poly, post: Poly)
    requires MessageBits(a) == pre + x + post && MessageBits(b) == pre + y + post
    requires |x| == |y| <= 32 && x != y
    ensures Hash(crc, a) != Hash(crc, b)
  {
    hide View, Hash, FeedAll, MessageBits;
    HashIsFeed(crc, a);
    HashIsFeed(crc, b);
    assert IEEE[31];
    BurstDetected(View(crc), pre, x, y, post, IEEE);
  }

  /** Equally long messages have the same CRC exactly if they differ by a multiple of the
      generator. */
  lemma SameCheckIff(crc: bv32, a: seq<bv8>, b: seq<bv8>)
    requires |a| == |b|
    ensures Hash(crc, a) == Hash(crc, b) <==> IsMultiple(Xor(MessageBits(a), MessageBits(b)), IEEE)
  {
    hide View, Hash, FeedAll, MessageBits, IsMultiple, Xor;
    HashIsFeed(crc, a);
    HashIsFeed(crc, b);
    assert IEEE[31];
    UndetectedIff(View(crc), MessageBits(a), MessageBits(b), IEEE);
    if View(Hash(crc, a)) == View(Hash(crc, b)) {
      ViewInjective(Hash(crc, a), Hash(crc, b));
    }
  }

  /** At the level of bytes: up to four changed neighbouring bytes never go unnoticed. */
  lemma FourBytesChangeCheck(crc: bv32, pre: seq<bv8>, x: seq<bv8>, y: seq<bv8>, post: seq<bv8>)
    requires |x| == |y| <= 4 && x != y
    ensures Hash(crc, pre + x + post) != Hash(crc, pre + y + post)
  {
    hide Hash, MessageBits;
    MessageBitsSplit(pre + x, post);
    MessageBitsSplit(pre, x);
    MessageBitsSplit(pre + y, post);
    MessageBitsSplit(pre, y);
    MessageBitsInjective(x, y);
    BurstChangesCheck(crc, pre + x + post, pre + y + post,
                      MessageBits(pre), MessageBits(x), MessageBits(y), MessageBits(post));
  }

  lemma ByteBitsInjective(a: bv8, b: bv8)
    requires ByteBits(a) == ByteBits(b)
    ensures a == b
  {
    hide View, ByteBits;
    ViewByte(a);
    ViewByte(b);
    ViewInjective(a as bv32, b as bv32);
    assert (a as bv32) as bv8 == (b as bv32) as bv8;
  }

  lemma {:induction false} MessageBitsInjective(a: seq<bv8>, b: seq<bv8>)
    requires |a| == |b| && a != b
    ensures MessageBits(a) != MessageBits(b)
    decreases |a|
  {
    hide ByteBits;
    var m, n := MessageBits(a), MessageBits(b);
    if m == n {
      assert m[..8] == ByteBits(a[0]) && n[..8] == ByteBits(b[0]);
      assert m[8..] == MessageBits(a[1..]) && n[8..] == MessageBits(b[1..]);
      ByteBitsInjective(a[0], b[0]);
      assert a == [a[0]] + a[1..] && b == [b[0]] + b[1..];
      MessageBitsInjective(a[1..], b[1..]);
    }
  }

  // ----- The code -----

  /** _crc32_hash (lines 59-71). */
  method Crc32Hash(crc: bv32, buf: seq<bv8>) returns (r: bv32)
    ensures r == Hash(crc, buf)
    ensures View(r) == FeedAll(View(crc), MessageBits(buf), IEEE)
  {
    hide HashByte;
    r := crc;
    var p, size := 0, |buf|;
    assert buf[0..] == buf;
    while size != 0
      invariant 0 <= p && p + size == |buf| && size >= 0
      invariant Hash(r, buf[p..]) == Hash(crc, buf)
    {
      size := size - 1;
      assert buf[p..][0] == buf[p] && buf[p..][1..] == buf[p + 1..];
      r := HashByte(r, buf[p]);
      p := p + 1;
    }
    HashIsFeed(crc, buf);
  }

  /** The accumulator that the crc32_ctx functions work on through a pointer. */
  class Context {
    var crc: bv32

    /** Everything hashed since the last initialization. */
    ghost var data: seq<bv8>

    ghost predicate Valid()
      reads this
    {
      View(crc) == FeedAll(Ones(32), MessageBits(data), IEEE)
    }

    constructor ()
      ensures Valid() && data == []
    {
      hide View;
      ViewOnes();
      crc, data := 0xFFFFFFFF, [];
    }

    method Init()
      modifies this
      ensures Valid() && data == []
    {
      hide View;
      ViewOnes();
      crc, data := 0xFFFFFFFF, [];
    }

    method HashBuffer(buf: seq<bv8>)
      requires Valid()
      modifies this
      ensures Valid() && data == old(data) + buf
    {
      hide View, IEEE, MessageBits, Hash, FeedAll;
      MessageBitsSplit(data, buf);
      FeedAllSplit(Ones(32), MessageBits(data), MessageBits(buf), IEEE);
      crc := Crc32Hash(crc, buf);
      data := data + buf;
    }

    method Hash32(val: bv32)
      requires Valid()
      modifies this
      ensures Valid() && data == old(data) + LittleEndian32(val)
    {
      hide View, FeedAll, MessageBits;
      HashBuffer(LittleEndian32(val));
    }

    method Hash16(val: bv16)
      requires Valid()
      modifies this
      ensures Valid() && data == old(data) + LittleEndian16(val)
    {
      hide View, FeedAll, MessageBits;
      HashBuffer(LittleEndian16(val));
    }

    method Hash8(val: bv8)
      requires Valid()
      modifies this
      ensures Valid() && data == old(data) + [val]
    {
      hide View, FeedAll, MessageBits;
      HashBuffer([val]);
    }

    /** The frame check sequence of everything hashed, however it was split into calls. */
    method Result() returns (r: bv32)
      requires Valid()
      ensures View(r) == FrameCheck(MessageBits(data))
    {
      hide View, FrameCheck, FeedAll, MessageBits, IEEE;
      r := crc ^ 0xFFFFFFFF;
      ResultIsFrameCheck(crc, MessageBits(data), r);
    }
  }
}

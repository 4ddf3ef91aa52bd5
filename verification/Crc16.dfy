/** CRC-16 (common/crc.c, lines 131-149): the shift loop against polynomial division by
    x^16 + x^12 + x^5 + 1. */
module Crc16 {
  import opened Gf2
  import opened Bits
  import Crc8

  const CCITT: Poly := [false, false, false, true, false, false, false, false,
                        false, false, true, false, false, false, false, true]

  function Mask(i: nat): bv16 {
    if i == 0 then 0x8000 else if i == 1 then 0x4000 else if i == 2 then 0x2000 else
    if i == 3 then 0x1000 else if i == 4 then 0x800 else if i == 5 then 0x400 else
    if i == 6 then 0x200 else if i == 7 then 0x100 else if i == 8 then 0x80 else
    if i == 9 then 0x40 else if i == 10 then 0x20 else if i == 11 then 0x10 else
    if i == 12 then 0x8 else if i == 13 then 0x4 else if i == 14 then 0x2 else 0x1
  }

  /** Bit i of a register, counted from the most significant. */
  predicate BitOf(x: bv16, i: nat) {
    x & Mask(i) != 0
  }

  function View(x: bv16): (v: Poly)
    ensures |v| == 16
  {
    seq(16, i requires 0 <= i < 16 => BitOf(x, i))
  }

  /** One step of the division. */
  function Bit(x: bv16): bv16 {
    if x & 0x8000 != 0 then (x << 1) ^ 0x1021 else x << 1
  }

  function Steps(x: bv16, n: nat): bv16
    decreases n
  {
    if n == 0 then x else Steps(Bit(x), n - 1)
  }

  function HashByte(crc: bv16, b: bv8): bv16 {
    Steps(crc ^ ((b as bv16) << 8), 8)
  }

  function Hash(crc: bv16, data: seq<bv8>): bv16
    decreases |data|
  {
    if data == [] then crc else Hash(HashByte(crc, data[0]), data[1..])
  }

  // ----- Registers as polynomials -----

  lemma MaskOneHot(i: nat)
    ensures Mask(i) != 0 && Mask(i) & (Mask(i) - 1) == 0
  {}

  lemma XorMasked(x: bv16, y: bv16, m: bv16)
    requires m != 0 && m & (m - 1) == 0
    ensures ((x ^ y) & m != 0) == ((x & m != 0) != (y & m != 0))
  {}

  lemma ViewXor(x: bv16, y: bv16)
    ensures View(x ^ y) == Xor(View(x), View(y))
  {
    hide Mask;
    forall i: nat | i < 16 ensures View(x ^ y)[i] == Xor(View(x), View(y))[i] {
      MaskOneHot(i);
      XorMasked(x, y, Mask(i));
    }
  }

  lemma BitOfShift0(x: bv16, i: nat)
    requires 0 <= i < 4
    ensures BitOf(x << 1, i) == (i < 15 && BitOf(x, i + 1))
  {
    if i == 0 {} else if i == 1 {} else if i == 2 {} else {}
  }

  lemma BitOfShift1(x: bv16, i: nat)
    requires 4 <= i < 8
    ensures BitOf(x << 1, i) == (i < 15 && BitOf(x, i + 1))
  {
    if i == 4 {} else if i == 5 {} else if i == 6 {} else {}
  }

  lemma BitOfShift2(x: bv16, i: nat)
    requires 8 <= i < 12
    ensures BitOf(x << 1, i) == (i < 15 && BitOf(x, i + 1))
  {
    if i == 8 {} else if i == 9 {} else if i == 10 {} else {}
  }

  lemma BitOfShift3(x: bv16, i: nat)
    requires 12 <= i < 16
    ensures BitOf(x << 1, i) == (i < 15 && BitOf(x, i + 1))
  {
    if i == 12 {} else if i == 13 {} else if i == 14 {} else {}
  }

  lemma BitOfShift(x: bv16, i: nat)
    requires i < 16
    ensures BitOf(x << 1, i) == (i < 15 && BitOf(x, i + 1))
  {
    hide BitOf;
    if i < 4 {
      BitOfShift0(x, i);
    } else if i < 8 {
      BitOfShift1(x, i);
    } else if i < 12 {
      BitOfShift2(x, i);
    } else {
      BitOfShift3(x, i);
    }
  }

  lemma ViewShift(x: bv16)
    ensures View(x << 1) == View(x)[1..] + [false]
  {
    hide BitOf;
    forall i: nat | i < 16 ensures View(x << 1)[i] == (View(x)[1..] + [false])[i] {
      BitOfShift(x, i);
    }
  }

  lemma BitOfByte(b: bv8, i: nat)
    requires i < 16
    ensures BitOf((b as bv16) << 8, i) == (i < 8 && ByteBit(b, i))
  {
    if i == 0 {} else if i == 1 {} else if i == 2 {} else if i == 3 {}
    else if i == 4 {} else if i == 5 {} else if i == 6 {} else if i == 7 {}
    else if i == 8 {} else if i == 9 {} else if i == 10 {} else if i == 11 {}
    else if i == 12 {} else if i == 13 {} else if i == 14 {} else {}
  }

  /** A message byte enters at the top of the register. */
  lemma ViewByte(b: bv8)
    ensures View((b as bv16) << 8) == Crc8.View(b) + Zeros(8)
  {
    hide BitOf, ByteBit;
    forall i: nat | i < 16 ensures View((b as bv16) << 8)[i] == (Crc8.View(b) + Zeros(8))[i] {
      BitOfByte(b, i);
    }
  }

  lemma BitOfGenerator(i: nat)
    requires i < 16
    ensures BitOf(0x1021, i) == CCITT[i]
  {
    if i == 0 {} else if i == 1 {} else if i == 2 {} else if i == 3 {}
    else if i == 4 {} else if i == 5 {} else if i == 6 {} else if i == 7 {}
    else if i == 8 {} else if i == 9 {} else if i == 10 {} else if i == 11 {}
    else if i == 12 {} else if i == 13 {} else if i == 14 {} else {}
  }

  lemma ViewConstants(x: bv16)
    ensures View(0x1021) == CCITT && View(x)[0] == (x & 0x8000 != 0)
  {
    forall i: nat | i < 16 ensures View(0x1021)[i] == CCITT[i] {
      hide BitOf;
      BitOfGenerator(i);
    }
  }

  lemma BitIsMul(x: bv16)
    ensures View(Bit(x)) == Mul(View(x), CCITT)
  {
    hide View, CCITT;
    ViewConstants(x);
    ViewShift(x);
    ViewXor(x << 1, 0x1021);
  }

  lemma {:induction false} StepsAreFeed(x: bv16, n: nat)
    ensures View(Steps(x, n)) == FeedAll(View(x), Zeros(n), CCITT)
    decreases n
  {
    hide Bit, View, Mul, Zeros, CCITT;
    if n > 0 {
      BitIsMul(x);
      FeedZero(View(x), n, CCITT);
      StepsAreFeed(Bit(x), n - 1);
    }
  }

  // ----- What is computed -----

  lemma HashByteIsFeed(crc: bv16, b: bv8)
    ensures View(HashByte(crc, b)) == FeedAll(View(crc), Crc8.View(b), CCITT)
  {
    hide View, Crc8.View, Steps, FeedAll, Xor, CCITT;
    var top := (b as bv16) << 8;
    StepsAreFeed(crc ^ top, 8);
    ViewXor(crc, top);
    ViewByte(b);
    FeedBlock(View(crc), Crc8.View(b), CCITT);
  }

  /** From any previous value, the CRC is the division of the message bits. */
  lemma {:induction false} HashIsFeed(crc: bv16, data: seq<bv8>)
    ensures View(Hash(crc, data)) == FeedAll(View(crc), Crc8.MessageBits(data), CCITT)
    decreases |data|
  {
    hide View, Crc8.View, HashByte, CCITT;
    if data == [] {
    } else {
      HashByteIsFeed(crc, data[0]);
      HashIsFeed(HashByte(crc, data[0]), data[1..]);
      FeedAllSplit(View(crc), Crc8.View(data[0]), Crc8.MessageBits(data[1..]), CCITT);
    }
  }

  lemma ViewZero()
    ensures View(0) == Zeros(16)
  {}

  /** With a zero start the CRC is the remainder of the message times x^16. */
  lemma HashIsRemainder(data: seq<bv8>)
    ensures View(Hash(0, data)) == Rem(Zeros(16), Crc8.MessageBits(data) + Zeros(16), CCITT)
  {
    hide Hash, Rem, Xor, Crc8.MessageBits, CCITT, FeedAll, View;
    var m := Crc8.MessageBits(data);
    HashIsFeed(0, data);
    ViewZero();
    RegisterIsRemainder(Zeros(16), m, CCITT);
    XorZero(m + Zeros(16));
    assert Zeros(16) + Zeros(|m|) == Zeros(|m| + 16);
  }

  lemma {:induction false} HashSplit(crc: bv16, a: seq<bv8>, b: seq<bv8>)
    ensures Hash(crc, a + b) == Hash(Hash(crc, a), b)
    decreases |a|
  {
    hide HashByte;
    if a == [] {
      assert a + b == b;
    } else {
      assert (a + b)[1..] == a[1..] + b;
      HashSplit(HashByte(crc, a[0]), a[1..], b);
    }
  }

  /** Two messages that differ only inside sixteen consecutive bits never have the same CRC. */
  lemma BurstChangesCheck(crc: bv16, a: seq<bv8>, b: seq<bv8>, pre: Poly, x: Poly, y: Poly, post: Poly)
    requires Crc8.MessageBits(a) == pre + x + post && Crc8.MessageBits(b) == pre + y + post
    requires |x| == |y| <= 16 && x != y
    ensures Hash(crc, a) != Hash(crc, b)
  {
    hide View, Hash, FeedAll, Crc8.MessageBits;
    HashIsFeed(crc, a);
    HashIsFeed(crc, b);
    BurstDetected(View(crc), pre, x, y, post, CCITT);
  }

  /** Equally long messages have the same CRC exactly if they differ by a multiple of the
      generator. */
  lemma SameCheckIff(crc: bv16, a: seq<bv8>, b: seq<bv8>)
    requires |a| == |b|
    ensures Hash(crc, a) == Hash(crc, b) <==> IsMultiple(Xor(Crc8.MessageBits(a), Crc8.MessageBits(b)), CCITT)
  {
    hide View, Hash, FeedAll, Crc8.MessageBits, IsMultiple, Xor;
    HashIsFeed(crc, a);
    HashIsFeed(crc, b);
    UndetectedIff(View(crc), Crc8.MessageBits(a), Crc8.MessageBits(b), CCITT);
    if View(Hash(crc, a)) == View(Hash(crc, b)) {
      ViewInjective(Hash(crc, a), Hash(crc, b));
    }
  }

  /** So an odd number of wrong bits always shows, wherever they are. */
  lemma OddErrorsChangeCheck(crc: bv16, a: seq<bv8>, b: seq<bv8>)
    requires |a| == |b| && Odd(Xor(Crc8.MessageBits(a), Crc8.MessageBits(b)))
    ensures Hash(crc, a) != Hash(crc, b)
  {
    hide View, Hash, FeedAll, Crc8.MessageBits, Xor;
    OddGenerator();
    hide Odd;
    HashIsFeed(crc, a);
    HashIsFeed(crc, b);
    OddErrorsDetected(View(crc), Crc8.MessageBits(a), Crc8.MessageBits(b), CCITT);
  }

  lemma OddGenerator()
    ensures Odd(CCITT)
  {
    assert CCITT == Zeros(3) + ([true] + (Zeros(6) + ([true] + (Zeros(4) + [true]))));
    OddConcat(Zeros(3), [true] + (Zeros(6) + ([true] + (Zeros(4) + [true]))));
    OddConcat([true], Zeros(6) + ([true] + (Zeros(4) + [true])));
    OddConcat(Zeros(6), [true] + (Zeros(4) + [true]));
    OddConcat([true], Zeros(4) + [true]);
    OddConcat(Zeros(4), [true]);
    OddZeros(3);
    OddZeros(6);
    OddZeros(4);
    assert [true][1..] == [];
  }

  lemma SameBit(x: bv16, y: bv16, i: nat)
    requires View(x) == View(y) && i < 16
    ensures BitOf(x, i) == BitOf(y, i)
  {
    hide BitOf;
    assert View(x)[i] == View(y)[i];
  }

  lemma SameBits0(x: bv16, y: bv16)
    requires (x & 0x8000 != 0) == (y & 0x8000 != 0) && (x & 0x4000 != 0) == (y & 0x4000 != 0)
    requires (x & 0x2000 != 0) == (y & 0x2000 != 0) && (x & 0x1000 != 0) == (y & 0x1000 != 0)
    ensures x & 0xF000 == y & 0xF000
  {}

  lemma SameNibble0(x: bv16, y: bv16)
    requires View(x) == View(y)
    ensures x & 0xF000 == y & 0xF000
  {
    hide View;
    SameBit(x, y, 0); SameBit(x, y, 1); SameBit(x, y, 2); SameBit(x, y, 3);
    SameBits0(x, y);
  }

  lemma SameBits1(x: bv16, y: bv16)
    requires (x & 0x800 != 0) == (y & 0x800 != 0) && (x & 0x400 != 0) == (y & 0x400 != 0)
    requires (x & 0x200 != 0) == (y & 0x200 != 0) && (x & 0x100 != 0) == (y & 0x100 != 0)
    ensures x & 0xF00 == y & 0xF00
  {}

  lemma SameNibble1(x: bv16, y: bv16)
    requires View(x) == View(y)
    ensures x & 0xF00 == y & 0xF00
  {
    hide View;
    SameBit(x, y, 4); SameBit(x, y, 5); SameBit(x, y, 6); SameBit(x, y, 7);
    SameBits1(x, y);
  }

  lemma SameBits2(x: bv16, y: bv16)
    requires (x & 0x80 != 0) == (y & 0x80 != 0) && (x & 0x40 != 0) == (y & 0x40 != 0)
    requires (x & 0x20 != 0) == (y & 0x20 != 0) && (x & 0x10 != 0) == (y & 0x10 != 0)
    ensures x & 0xF0 == y & 0xF0
  {}

  lemma SameNibble2(x: bv16, y: bv16)
    requires View(x) == View(y)
    ensures x & 0xF0 == y & 0xF0
  {
    hide View;
    SameBit(x, y, 8); SameBit(x, y, 9); SameBit(x, y, 10); SameBit(x, y, 11);
    SameBits2(x, y);
  }

  lemma SameBits3(x: bv16, y: bv16)
    requires (x & 0x8 != 0) == (y & 0x8 != 0) && (x & 0x4 != 0) == (y & 0x4 != 0)
    requires (x & 0x2 != 0) == (y & 0x2 != 0) && (x & 0x1 != 0) == (y & 0x1 != 0)
    ensures x & 0xF == y & 0xF
  {}

  lemma SameNibble3(x: bv16, y: bv16)
    requires View(x) == View(y)
    ensures x & 0xF == y & 0xF
  {
    hide View;
    SameBit(x, y, 12); SameBit(x, y, 13); SameBit(x, y, 14); SameBit(x, y, 15);
    SameBits3(x, y);
  }

  lemma Nibbles(x: bv16, y: bv16)
    requires x & 0xF000 == y & 0xF000 && x & 0xF00 == y & 0xF00 && x & 0xF0 == y & 0xF0 && x & 0xF == y & 0xF
    ensures x == y
  {}

  lemma ViewInjective(x: bv16, y: bv16)
    requires View(x) == View(y)
    ensures x == y
  {
    hide View;
    SameNibble0(x, y);
    SameNibble1(x, y);
    SameNibble2(x, y);
    SameNibble3(x, y);
    Nibbles(x, y);
  }

  // ----- The code -----

  method EightSteps(start: bv16) returns (crc: bv16)
    ensures crc == Steps(start, 8)
  {
    crc := start;
    for j := 0 to 8
      invariant Steps(crc, 8 - j) == Steps(start, 8)
    {
      if crc & 0x8000 != 0 {
        crc := (crc << 1) ^ 0x1021;
      } else {
        crc := crc << 1;
      }
    }
  }

  lemma HashNext(crc: bv16, data: seq<bv8>, p: nat)
    requires p < |data|
    ensures Hash(crc, data[p..]) == Hash(HashByte(crc, data[p]), data[p + 1..])
  {
    hide HashByte;
    assert data[p..][0] == data[p] && data[p..][1..] == data[p + 1..];
  }

  /** cros_crc16. */
  method CrosCrc16(data: seq<bv8>, previousCrc: bv16) returns (crc16: bv16)
    ensures crc16 == Hash(previousCrc, data)
    ensures View(crc16) == FeedAll(View(previousCrc), Crc8.MessageBits(data), CCITT)
  {
    HashIsFeed(previousCrc, data);
    hide View, FeedAll, Steps, Crc8.MessageBits;
    crc16 := previousCrc;
    assert data[0..] == data;
    for i := 0 to |data|
      invariant Hash(crc16, data[i..]) == Hash(previousCrc, data)
    {
      hide Hash;
      HashNext(crc16, data, i);
      crc16 := EightSteps(crc16 ^ ((data[i] as bv16) << 8));
    }
    assert data[|data|..] == [];
  }
}

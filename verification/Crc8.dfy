/** CRC-8 (common/crc8.c): the shift loop in a wide register, against polynomial division
    by x^8 + x^2 + x + 1. */
module Crc8 {
  import opened Gf2
  import opened Bits

  const SMBUS: Poly := [false, false, false, false, false, true, true, true]

  /** The bits of a byte, most significant first: both the register and the message order. */
  function View(x: bv8): (v: Poly)
    ensures |v| == 8
  {
    seq(8, i requires 0 <= i < 8 => ByteBit(x, i))
  }

  function MessageBits(data: seq<bv8>): (m: Poly)
    ensures |m| == 8 * |data|
  {
    if data == [] then [] else View(data[0]) + MessageBits(data[1..])
  }

  /** One step of the division on an eight-bit register. */
  function Bit(x: bv8): bv8 {
    if x & 0x80 != 0 then (x << 1) ^ 0x07 else x << 1
  }

  function Steps(x: bv8, n: nat): bv8
    decreases n
  {
    if n == 0 then x else Steps(Bit(x), n - 1)
  }

  function Hash(crc: bv8, data: seq<bv8>): bv8
    decreases |data|
  {
    if data == [] then crc else Hash(Steps(crc ^ data[0], 8), data[1..])
  }

  // ----- Registers as polynomials -----

  lemma ByteBitXor(x: bv8, y: bv8, i: nat)
    requires i < 8
    ensures ByteBit(x ^ y, i) == (ByteBit(x, i) != ByteBit(y, i))
  {
    hide ByteBit;
    if i < 4 {
      ByteBitXorHigh(x, y, i);
    } else {
      ByteBitXorLow(x, y, i);
    }
  }

  lemma ByteBitXorHigh(x: bv8, y: bv8, i: nat)
    requires i < 4
    ensures ByteBit(x ^ y, i) == (ByteBit(x, i) != ByteBit(y, i))
  {
    if i == 0 {} else if i == 1 {} else if i == 2 {} else {}
  }

  lemma ByteBitXorLow(x: bv8, y: bv8, i: nat)
    requires 4 <= i < 8
    ensures ByteBit(x ^ y, i) == (ByteBit(x, i) != ByteBit(y, i))
  {
    if i == 4 {} else if i == 5 {} else if i == 6 {} else {}
  }

  lemma ByteBitShift(x: bv8, i: nat)
    requires i < 8
    ensures ByteBit(x << 1, i) == (i < 7 && ByteBit(x, i + 1))
  {
    if i == 0 {} else if i == 1 {} else if i == 2 {} else if i == 3 {}
    else if i == 4 {} else if i == 5 {} else if i == 6 {} else {}
  }

  lemma ViewXor(x: bv8, y: bv8)
    ensures View(x ^ y) == Xor(View(x), View(y))
  {
    hide ByteBit;
    forall i: nat | i < 8 ensures View(x ^ y)[i] == Xor(View(x), View(y))[i] {
      ByteBitXor(x, y, i);
    }
  }

  lemma ViewShift(x: bv8)
    ensures View(x << 1) == View(x)[1..] + [false]
  {
    hide ByteBit;
    forall i: nat | i < 8 ensures View(x << 1)[i] == (View(x)[1..] + [false])[i] {
      ByteBitShift(x, i);
    }
  }

  lemma ViewConstants(x: bv8)
    ensures View(0x07) == SMBUS && View(x)[0] == (x & 0x80 != 0)
  {}

  lemma BitIsMul(x: bv8)
    ensures View(Bit(x)) == Mul(View(x), SMBUS)
  {
    hide View;
    ViewConstants(x);
    ViewShift(x);
    ViewXor(x << 1, 0x07);
  }

  lemma {:induction false} StepsAreFeed(x: bv8, n: nat)
    ensures View(Steps(x, n)) == FeedAll(View(x), Zeros(n), SMBUS)
    decreases n
  {
    hide Bit, View, Mul, Zeros, SMBUS;
    if n > 0 {
      BitIsMul(x);
      FeedZero(View(x), n, SMBUS);
      StepsAreFeed(Bit(x), n - 1);
    }
  }

  lemma HashByteIsFeed(crc: bv8, b: bv8)
    ensures View(Steps(crc ^ b, 8)) == FeedAll(View(crc), View(b), SMBUS)
  {
    hide View, Steps, FeedAll, Xor, SMBUS;
    StepsAreFeed(crc ^ b, 8);
    ViewXor(crc, b);
    FeedBlock(View(crc), View(b), SMBUS);
    assert View(b) + Zeros(0) == View(b);
  }

  /** From any previous value, the CRC is the division of the message bits. */
  lemma {:induction false} HashIsFeed(crc: bv8, data: seq<bv8>)
    ensures View(Hash(crc, data)) == FeedAll(View(crc), MessageBits(data), SMBUS)
    decreases |data|
  {
    hide View, Steps, SMBUS;
    if data == [] {
    } else {
      HashByteIsFeed(crc, data[0]);
      HashIsFeed(Steps(crc ^ data[0], 8), data[1..]);
      FeedAllSplit(View(crc), View(data[0]), MessageBits(data[1..]), SMBUS);
    }
  }

  /** With a zero start the CRC is the remainder of the message times x^8. */
  lemma HashIsRemainder(data: seq<bv8>)
    ensures View(Hash(0, data)) == Rem(Zeros(8), MessageBits(data) + Zeros(8), SMBUS)
  {
    hide Hash, Rem, Xor, MessageBits, SMBUS, FeedAll;
    HashIsFeed(0, data);
    assert View(0) == Zeros(8);
    hide View;
    RegisterIsRemainder(Zeros(8), MessageBits(data), SMBUS);
    XorZero(MessageBits(data) + Zeros(8));
    assert Zeros(8) + Zeros(|MessageBits(data)|) == Zeros(|MessageBits(data)| + 8);
  }

  /** Checking a message piece by piece. */
  lemma {:induction false} HashSplit(crc: bv8, a: seq<bv8>, b: seq<bv8>)
    ensures Hash(crc, a + b) == Hash(Hash(crc, a), b)
    decreases |a|
  {
    hide Steps;
    if a == [] {
      assert a + b == b;
    } else {
      assert (a + b)[1..] == a[1..] + b;
      HashSplit(Steps(crc ^ a[0], 8), a[1..], b);
    }
  }

  /** Two messages that differ only inside eight consecutive bits never have the same CRC. */
  lemma BurstChangesCheck(crc: bv8, a: seq<bv8>, b: seq<bv8>, pre: Poly, x: Poly, y: Poly, post: Poly)
    requires MessageBits(a) == pre + x + post && MessageBits(b) == pre + y + post
    requires |x| == |y| <= 8 && x != y
    ensures Hash(crc, a) != Hash(crc, b)
  {
    hide View, Hash, FeedAll, MessageBits;
    HashIsFeed(crc, a);
    HashIsFeed(crc, b);
    BurstDetected(View(crc), pre, x, y, post, SMBUS);
  }

  lemma ViewInjective(x: bv8, y: bv8)
    requires View(x) == View(y)
    ensures x == y
  {
    hide ByteBit;
    assert forall i: nat | i < 8 :: ByteBit(x, i) == View(x)[i] && ByteBit(y, i) == View(y)[i];
    BitsDetermine(x, y);
  }

  lemma BitsDetermine(x: bv8, y: bv8)
    requires forall i: nat | i < 8 :: ByteBit(x, i) == ByteBit(y, i)
    ensures x == y
  {
    assert ByteBit(x, 0) == ByteBit(y, 0) && ByteBit(x, 1) == ByteBit(y, 1);
    assert ByteBit(x, 2) == ByteBit(y, 2) && ByteBit(x, 3) == ByteBit(y, 3);
    assert ByteBit(x, 4) == ByteBit(y, 4) && ByteBit(x, 5) == ByteBit(y, 5);
    assert ByteBit(x, 6) == ByteBit(y, 6) && ByteBit(x, 7) == ByteBit(y, 7);
  }

  /** Equally long messages have the same CRC exactly if they differ by a multiple of the
      generator. */
  lemma SameCheckIff(crc: bv8, a: seq<bv8>, b: seq<bv8>)
    requires |a| == |b|
    ensures Hash(crc, a) == Hash(crc, b) <==> IsMultiple(Xor(MessageBits(a), MessageBits(b)), SMBUS)
  {
    hide View, Hash, FeedAll, MessageBits, IsMultiple, Xor;
    HashIsFeed(crc, a);
    HashIsFeed(crc, b);
    UndetectedIff(View(crc), MessageBits(a), MessageBits(b), SMBUS);
    if View(Hash(crc, a)) == View(Hash(crc, b)) {
      ViewInjective(Hash(crc, a), Hash(crc, b));
    }
  }

  /** So an odd number of wrong bits always shows, wherever they are. */
  lemma OddErrorsChangeCheck(crc: bv8, a: seq<bv8>, b: seq<bv8>)
    requires |a| == |b| && Odd(Xor(MessageBits(a), MessageBits(b)))
    ensures Hash(crc, a) != Hash(crc, b)
  {
    hide View, Hash, FeedAll, MessageBits, Xor;
    OddGenerator();
    hide Odd;
    HashIsFeed(crc, a);
    HashIsFeed(crc, b);
    OddErrorsDetected(View(crc), MessageBits(a), MessageBits(b), SMBUS);
  }

  lemma OddGenerator()
    ensures Odd(SMBUS)
  {
    assert SMBUS == Zeros(5) + [true, true, true];
    OddConcat(Zeros(5), [true, true, true]);
    OddZeros(5);
    assert [true, true, true][1..][1..] == [true];
  }

  /** Two equally long messages that differ in exactly one byte never have the same CRC. */
  lemma OneByteChangesCheck(crc: bv8, a: seq<bv8>, k: nat, b: bv8)
    requires k < |a| && a[k] != b
    ensures Hash(crc, a) != Hash(crc, a[k := b])
  {
    hide Hash, View;
    var pre, post := MessageBits(a[..k]), MessageBits(a[k + 1..]);
    assert a == a[..k] + [a[k]] + a[k + 1..] && a[k := b] == a[..k] + [b] + a[k + 1..];
    MessageBitsAround(a[..k], a[k], a[k + 1..]);
    MessageBitsAround(a[..k], b, a[k + 1..]);
    if View(a[k]) == View(b) {
      ViewInjective(a[k], b);
    }
    BurstChangesCheck(crc, a, a[k := b], pre, View(a[k]), View(b), post);
  }

  lemma {:induction false} MessageBitsAround(pre: seq<bv8>, b: bv8, post: seq<bv8>)
    ensures MessageBits(pre + [b] + post) == MessageBits(pre) + View(b) + MessageBits(post)
    decreases |pre|
  {
    hide View;
    if pre == [] {
      assert ([] + [b] + post)[1..] == post;
    } else {
      assert (pre + [b] + post)[1..] == pre[1..] + [b] + post;
      MessageBitsAround(pre[1..], b, post);
    }
  }

  // ----- The code -----

  /** The register sits in the second byte of an unsigned int; one inner iteration is one step. */
  lemma InnerStep(x: bv8, crc: bv32, next: bv32)
    requires crc == (x as bv32) << 8
    requires next == (if crc & 0x8000 != 0 then crc ^ (0x1070 << 3) else crc) << 1
    ensures next == (Bit(x) as bv32) << 8
  {}

  lemma EnterByte(x: bv8, b: bv8, crc: bv32, next: bv32)
    requires crc == (x as bv32) << 8 && next == crc ^ ((b as bv32) << 8)
    ensures next == ((x ^ b) as bv32) << 8
  {}

  lemma LeaveRegister(x: bv8, crc: bv32)
    requires crc == (x as bv32) << 8
    ensures ((crc >> 8) & 0xFF) as bv8 == x
  {}

  /** The inner loop (lines 20-24): eight steps in the upper half of a sixteen-bit register. */
  method EightSteps(register: bv32, ghost start: bv8) returns (crc: bv32)
    requires register == (start as bv32) << 8
    ensures crc == (Steps(start, 8) as bv32) << 8
  {
    hide Bit;
    crc := register;
    ghost var x := start;
    var i := 8;
    while i != 0
      invariant 0 <= i <= 8
      invariant crc == (x as bv32) << 8
      invariant Steps(x, i) == Steps(start, 8)
      decreases i
    {
      ghost var before := crc;
      if crc & 0x8000 != 0 {
        crc := crc ^ (0x1070 << 3);
      }
      crc := crc << 1;
      InnerStep(x, before, crc);
      x := Bit(x);
      i := i - 1;
    }
  }

  lemma HashNext(x: bv8, data: seq<bv8>, p: nat)
    requires p < |data|
    ensures Hash(x, data[p..]) == Hash(Steps(x ^ data[p], 8), data[p + 1..])
  {
    hide Steps;
    assert data[p..][0] == data[p] && data[p..][1..] == data[p + 1..];
  }

  lemma HashNone(x: bv8, rest: seq<bv8>)
    requires rest == []
    ensures Hash(x, rest) == x
  {}

  method CrosCrc8Arg(data: seq<bv8>, previousCrc: bv8) returns (r: bv8)
    ensures r == Hash(previousCrc, data)
    ensures View(r) == FeedAll(View(previousCrc), MessageBits(data), SMBUS)
  {
    hide Bit, View, FeedAll, Steps, Hash;
    var crc := (previousCrc as bv32) << 8;
    ghost var x := previousCrc;
    var p, j := 0, |data|;
    assert data[0..] == data;
    while j != 0
      invariant 0 <= j && p + j == |data|
      invariant crc == (x as bv32) << 8
      invariant Hash(x, data[p..]) == Hash(previousCrc, data)
      decreases j
    {
      HashNext(x, data, p);
      ghost var start := x ^ data[p];
      ghost var before := crc;
      crc := crc ^ ((data[p] as bv32) << 8);
      EnterByte(x, data[p], before, crc);
      crc := EightSteps(crc, start);
      x := Steps(start, 8);
      p, j := p + 1, j - 1;
    }
    HashNone(x, data[p..]);
    LeaveRegister(x, crc);
    HashIsFeed(previousCrc, data);
    return ((crc >> 8) & 0xFF) as bv8;
  }

  method CrosCrc8(data: seq<bv8>) returns (r: bv8)
    ensures r == Hash(0, data)
    ensures View(r) == Rem(Zeros(8), MessageBits(data) + Zeros(8), SMBUS)
  {
    hide View, Rem, FeedAll, Hash, MessageBits;
    HashIsRemainder(data);
    r := CrosCrc8Arg(data, 0);
  }
}

/** Base-32 text with optional CRC-5 groups (common/base32.c).
    The C code packs bits into bytes in place; the specification below works on
    sequences of bits and symbols, and the methods are proved against it. */
module Base32 {
  import opened Arith
  import opened Bits

  datatype Status = Success | Inval

  /** What decoding yields: -1 in C, or the decoded bits. */
  datatype Decoded = Bad | Bits(bits: seq<bool>)

  // ----- CRC-5 -----

  function Crc5Table1(i: bv8): bv8
    requires i < 16
  {
    if i == 0 then 0x00 else if i == 1 then 0x0E else if i == 2 then 0x1C else if i == 3 then 0x12
    else if i == 4 then 0x11 else if i == 5 then 0x1F else if i == 6 then 0x0D else if i == 7 then 0x03
    else if i == 8 then 0x0B else if i == 9 then 0x05 else if i == 10 then 0x17 else if i == 11 then 0x19
    else if i == 12 then 0x1A else if i == 13 then 0x14 else if i == 14 then 0x06 else 0x08
  }

  function Crc5Table0(i: bv8): bv8
    requires i < 16
  {
    if i == 0 then 0x00 else if i == 1 then 0x16 else if i == 2 then 0x05 else if i == 3 then 0x13
    else if i == 4 then 0x0A else if i == 5 then 0x1C else if i == 6 then 0x0F else if i == 7 then 0x19
    else if i == 8 then 0x14 else if i == 9 then 0x02 else if i == 10 then 0x11 else if i == 11 then 0x07
    else if i == 12 then 0x1E else if i == 13 then 0x08 else if i == 14 then 0x1B else 0x0D
  }

  function Crc5Sym(sym: bv8, previous: bv8): bv8 {
    var tmp := sym ^ previous;
    Crc5Table1(tmp & 0x0F) ^ Crc5Table0((tmp >> 4) & 0x0F)
  }

  /** One bit of the division by x^5 + x^2 + 1, reflected (0x14). */
  function Crc5Bit(x: Sym): Sym {
    if x & 1 == 1 then (x >> 1) ^ 0x14 else x >> 1
  }

  /** One byte of the division: a symbol followed by three zero bits. */
  function Crc5Step(x: Sym): Sym {
    Crc5Bit(Crc5Bit(Crc5Bit(Crc5Bit(Crc5Bit(Crc5Bit(Crc5Bit(Crc5Bit(x))))))))
  }

  /** The register after one more symbol. */
  function Crc5(sym: Sym, crc: Sym): Sym {
    Crc5Step(sym ^ crc)
  }

  /** The two table lookups are the polynomial division, for every symbol and register. */
  lemma Crc5SymIsDivision(sym: Sym, previous: Sym)
    ensures Crc5Sym(sym as bv8, previous as bv8) == Crc5(sym, previous) as bv8
  {}

  /** crc5_sym on symbols (lines 20-24). */
  method NextCrc(sym: Sym, crc: Sym) returns (next: Sym)
    ensures next == Crc5(sym, crc)
  {
    hide Crc5Sym, Crc5;
    Crc5SymIsDivision(sym, crc);
    next := Crc5Sym(sym as bv8, crc as bv8) as Sym;
  }

  /** A wrong symbol changes the register, and a wrong register stays wrong. */
  lemma Crc5Injective(a: Sym, b: Sym, c: Sym)
    requires a != b
    ensures Crc5(a, c) != Crc5(b, c)
    ensures Crc5(c, a) != Crc5(c, b)
  {
    hide Crc5Step;
    Crc5StepInjective(a ^ c, b ^ c);
    Crc5StepInjective(c ^ a, c ^ b);
  }

  lemma Crc5StepInjective(x: Sym, y: Sym)
    requires x != y
    ensures Crc5Step(x) != Crc5Step(y)
  {}

  /** Nor does the step leave the difference of two registers as it was. */
  lemma Crc5StepMoves(x: Sym, y: Sym)
    requires x != y
    ensures Crc5Step(x) ^ x != Crc5Step(y) ^ y
  {}

  lemma XorMove(p: Sym, q: Sym, u: Sym, v: Sym)
    requires p ^ u != q ^ v
    ensures p ^ q != u ^ v
  {}

  /** Two registers differ by the step of the symbols' difference, which is never that difference. */
  lemma Crc5Difference(a: Sym, b: Sym, c: Sym)
    requires a != b
    ensures Crc5(a, c) ^ Crc5(b, c) != a ^ b
  {
    hide Crc5Step;
    XorCancel(a, b, c);
    StepDifference(a ^ c, b ^ c, Crc5Step(a ^ c), Crc5Step(b ^ c));
  }

  lemma StepDifference(u: Sym, v: Sym, p: Sym, q: Sym)
    requires u != v && p == Crc5Step(u) && q == Crc5Step(v)
    ensures p ^ q != u ^ v
  {
    hide Crc5Step;
    Crc5StepMoves(u, v);
    XorMove(p, q, u, v);
  }

  lemma XorCancel(a: Sym, b: Sym, c: Sym)
    ensures (a ^ c) ^ (b ^ c) == a ^ b
  {}

  lemma Crc5Cross(a: Sym, b: Sym, p: Sym, q: Sym)
    requires p ^ q != a ^ b
    ensures Crc5(b, p) != Crc5(a, q)
  {
    assert b ^ p != a ^ q;
    Crc5StepInjective(b ^ p, a ^ q);
  }

  /** Transposing two different symbols always changes the register: p and q are the
      registers after the first of the two. */
  lemma Crc5Transposition(a: Sym, b: Sym, c: Sym, p: Sym, q: Sym)
    requires a != b
    requires p == Crc5(a, c) && q == Crc5(b, c)
    ensures Crc5(b, p) != Crc5(a, q)
  {
    assert p ^ q != a ^ b by {
      Crc5Difference(a, b, c);
    }
    Crc5Cross(a, b, p, q);
  }

  // ----- Symbols and characters -----

  /** A-Z0-9 with I, O, 0 and 1 removed. */
  const MAP: string := "ABCDEFGHJKLMNPQRSTUVWXYZ23456789"

  /** The value of a symbol character, or -1. */
  function SymOf(c: char): (i: int)
    ensures -1 <= i < 32
  {
    if 'A' <= c <= 'H' then c as int - 'A' as int
    else if 'J' <= c <= 'N' then c as int - 'J' as int + 8
    else if 'P' <= c <= 'Z' then c as int - 'P' as int + 13
    else if '2' <= c <= '9' then c as int - '2' as int + 24
    else -1
  }

  function SymValue(c: char): Sym
    requires SymOf(c) >= 0
  {
    SymOf(c) as Sym
  }

  predicate Separator(c: char) {
    c == ' ' || c == '\t' || c == '\r' || c == '\n' || c == '-'
  }

  lemma MapRoundTrip(i: nat)
    requires i < 32
    ensures SymOf(MAP[i]) == i
    ensures !Separator(MAP[i]) && MAP[i] != '\0'
  {}

  lemma SymOfIsMap(c: char)
    ensures SymOf(c) >= 0 ==> MAP[SymOf(c)] == c
    ensures SymOf(c) < 0 ==> c !in MAP
  {
    if c in MAP {
      var i: nat :| i < 32 && MAP[i] == c;
      MapRoundTrip(i);
    }
  }

  /** The symbol lookup: a linear search of the map. */
  method DecodeSym(c: char) returns (sym: int)
    ensures sym == SymOf(c)
  {
    for i := 0 to 32
      invariant c !in MAP[..i]
    {
      if c == MAP[i] {
        MapRoundTrip(i);
        return i;
      }
    }
    SymOfIsMap(c);
    return -1;
  }

  // ----- The text of a bit string -----

  /** The bits cut into five-bit symbols, the last one padded with zeros. */
  function Symbols(bits: seq<bool>): (syms: seq<Sym>)
    ensures |syms| == (|bits| + 4) / 5
  {
    if bits == [] then [] else
    var w := Min(5, |bits|);
    [Pack(bits[..w])] + Symbols(bits[w..])
  }

  /** All bits of a sequence of symbols, padding included. */
  function AllBits(syms: seq<Sym>): (bits: seq<bool>)
    ensures |bits| == 5 * |syms|
  {
    if syms == [] then [] else SymBits(syms[0]) + AllBits(syms[1..])
  }

  function CharOf(s: Sym): char {
    MAP[s as int]
  }

  /** The text of the symbols, starting with register crc after count symbols of a group;
      n is the group size, and zero means no CRC. */
  function Write(syms: seq<Sym>, n: nat, crc: Sym, count: nat): string {
    if syms == [] then []
    else if n == 0 then [CharOf(syms[0])] + Write(syms[1..], n, crc, count)
    else
      var next := Crc5(syms[0], crc);
      if count + 1 == n then [CharOf(syms[0]), CharOf(next)] + Write(syms[1..], n, 0, 0)
      else [CharOf(syms[0])] + Write(syms[1..], n, next, count + 1)
  }

  function EncodeText(bits: seq<bool>, n: nat): string {
    Write(Symbols(bits), n, 0, 0)
  }

  /** What is left to do at the end of the text: a started group is an error. */
  function Finish(n: nat, count: nat): Decoded {
    if n != 0 && count != 0 then Bad else Bits([])
  }

  function Prepend(bits: seq<bool>, rest: Decoded): Decoded {
    match rest
    case Bad => Bad
    case Bits(tail) => Bits(bits + tail)
  }

  /** Reading a text into at most room bits. */
  function Read(src: string, room: nat, n: nat, crc: Sym, count: nat): Decoded {
    if src == [] || src[0] == '\0' then Finish(n, count)
    else if Separator(src[0]) then Read(src[1..], room, n, crc, count)
    else if SymOf(src[0]) < 0 then Bad
    else
      var sym := SymValue(src[0]);
      if n != 0 && count == n then
        if crc != sym then Bad else Read(src[1..], room, n, 0, 0)
      else
        var next, count' := if n != 0 then Crc5(sym, crc) else crc, if n != 0 then count + 1 else count;
        if room == 0 then Finish(n, count')
        else
          var w := Min(5, room);
          Prepend(SymBits(sym)[..w], Read(src[1..], room - w, n, next, count'))
  }

  function DecodeText(src: string, room: nat, n: nat): Decoded {
    Read(src, room, n, 0, 0)
  }

  // ----- Round trip and prefix decoding -----

  lemma {:induction false} SymbolsKeepBits(bits: seq<bool>, k: nat)
    requires k < |AllBits(Symbols(bits))|
    ensures AllBits(Symbols(bits))[k] == (k < |bits| && bits[k])
  {
    if bits == [] {
    } else {
      var w := Min(5, |bits|);
      if k < 5 {
        PackBits(bits[..w], k);
      } else {
        SymbolsKeepBits(bits[w..], k - 5);
      }
    }
  }

  lemma CharRoundTrip(s: Sym)
    ensures SymOf(CharOf(s)) >= 0 && SymValue(CharOf(s)) == s
    ensures !Separator(CharOf(s)) && CharOf(s) != '\0'
  {
    MapRoundTrip(s as int);
  }

  /** k symbols from position count of a group end exactly on a group boundary. */
  predicate WholeGroups(k: nat, count: nat, n: nat)
    requires count < n
  {
    if k == 0 then count == 0
    else WholeGroups(k - 1, if count + 1 == n then 0 else count + 1, n)
  }

  lemma {:induction false} WholeGroupsModulo(k: nat, count: nat, n: nat)
    requires count < n
    ensures WholeGroups(k, count, n) <==> (k + count) % n == 0
    decreases k
  {
    if k == 0 {
      DivModUnique(count, n, 0, count);
    } else if count + 1 == n {
      AddModulus(k - 1, n);
      WholeGroupsModulo(k - 1, 0, n);
    } else {
      WholeGroupsModulo(k - 1, count + 1, n);
    }
  }

  lemma ReadData(s: Sym, rest: string, room: nat, n: nat, crc: Sym, count: nat)
    requires n == 0 || count != n
    ensures Read([CharOf(s)] + rest, room, n, crc, count)
         == if room == 0 then Finish(n, if n != 0 then count + 1 else count)
            else Prepend(SymBits(s)[..Min(5, room)],
                         if n == 0 then Read(rest, room - Min(5, room), n, crc, count)
                         else Read(rest, room - Min(5, room), n, Crc5(s, crc), count + 1))
  {
    CharRoundTrip(s);
    assert ([CharOf(s)] + rest)[1..] == rest;
  }

  lemma ReadCrc(rest: string, room: nat, n: nat, crc: Sym)
    requires n > 0
    ensures Read([CharOf(crc)] + rest, room, n, crc, n) == Read(rest, room, n, 0, 0)
  {
    CharRoundTrip(crc);
    assert ([CharOf(crc)] + rest)[1..] == rest;
  }

  lemma TakeConcat(x: seq<bool>, y: seq<bool>, room: nat)
    ensures x[..Min(|x|, room)] + y[..Min(room - Min(|x|, room), |y|)] == (x + y)[..Min(room, |x| + |y|)]
  {}

  /** Reading back written symbols into any room. With a CRC the text is accepted only
      if the room reaches into its last symbol. */
  lemma {:induction false} ReadWrite(syms: seq<Sym>, room: nat, n: nat, crc: Sym, count: nat)
    requires n > 0 ==> count < n && WholeGroups(|syms|, count, n)
    ensures Read(Write(syms, n, crc, count), room, n, crc, count)
         == if n == 0 || 5 * |syms| < room + 5
            then Bits(AllBits(syms)[..Min(room, 5 * |syms|)]) else Bad
    decreases |syms|
  {
    hide Crc5, Crc5Step, SymValue, SymBits, SymOf, Separator, CharOf;
    if syms == [] {
    } else {
      var next := Crc5(syms[0], crc);
      var space := room - Min(5, room);
      TakeConcat(SymBits(syms[0]), AllBits(syms[1..]), room);
      if n == 0 {
        ReadData(syms[0], Write(syms[1..], n, crc, count), room, n, crc, count);
        ReadWrite(syms[1..], space, n, crc, count);
      } else if count + 1 == n {
        ReadWriteLast(syms, room, n, crc, count);
        ReadWrite(syms[1..], space, n, 0, 0);
      } else {
        ReadData(syms[0], Write(syms[1..], n, next, count + 1), room, n, crc, count);
        ReadWrite(syms[1..], space, n, next, count + 1);
      }
    }
  }

  /** The last symbol of a group is read together with its CRC. */
  lemma ReadWriteLast(syms: seq<Sym>, room: nat, n: nat, crc: Sym, count: nat)
    requires syms != [] && n == count + 1
    ensures Read(Write(syms, n, crc, count), room, n, crc, count)
         == if room == 0 then Bad
            else Prepend(SymBits(syms[0])[..Min(5, room)],
                         Read(Write(syms[1..], n, 0, 0), room - Min(5, room), n, 0, 0))
  {
    hide Crc5, Crc5Step, SymValue, SymBits, SymOf, Separator, CharOf;
    var next := Crc5(syms[0], crc);
    var tail := Write(syms[1..], n, 0, 0);
    assert Write(syms, n, crc, count) == [CharOf(syms[0])] + ([CharOf(next)] + tail);
    ReadData(syms[0], [CharOf(next)] + tail, room, n, crc, count);
    ReadCrc(tail, room - Min(5, room), n, next);
  }

  /** Decoding an encoded string into any room, for every length and group size the
      encoder accepts. With a CRC, a room that stops before the last symbol is an error:
      the break leaves a started group behind. */
  lemma DecodeEncoded(bits: seq<bool>, room: nat, n: nat)
    requires n > 0 ==> |Symbols(bits)| % n == 0
    ensures DecodeText(EncodeText(bits, n), room, n)
         == if n == 0 || 5 * |Symbols(bits)| < room + 5
            then Bits(AllBits(Symbols(bits))[..Min(room, 5 * |Symbols(bits)|)]) else Bad
  {
    if n > 0 {
      WholeGroupsModulo(|Symbols(bits)|, 0, n);
    }
    ReadWrite(Symbols(bits), room, n, 0, 0);
  }

  /** Decoding the first m bits gives those bits exactly when there is no CRC or m reaches
      into the last symbol; in every other case the decoder refuses the text. */
  lemma PrefixDecoding(bits: seq<bool>, m: nat, n: nat)
    requires n > 0 ==> |Symbols(bits)| % n == 0
    requires m <= |bits|
    ensures n == 0 || (m + 4) / 5 == (|bits| + 4) / 5 ==> DecodeText(EncodeText(bits, n), m, n) == Bits(bits[..m])
    ensures !(n == 0 || (m + 4) / 5 == (|bits| + 4) / 5) ==> DecodeText(EncodeText(bits, n), m, n) == Bad
  {
    hide Crc5, Crc5Step, SymBits, Symbols, AllBits, EncodeText, DecodeText;
    DecodeEncoded(bits, m, n);
    forall k: nat | k < m ensures AllBits(Symbols(bits))[k] == bits[k] {
      SymbolsKeepBits(bits, k);
    }
  }

  /** Decoding at the encoded length gives back exactly the encoded bits. */
  lemma RoundTrip(bits: seq<bool>, n: nat)
    requires n > 0 ==> |Symbols(bits)| % n == 0
    ensures DecodeText(EncodeText(bits, n), |bits|, n) == Bits(bits)
  {
    PrefixDecoding(bits, |bits|, n);
    assert bits[..|bits|] == bits;
  }

  // ----- What is accepted -----

  /** What counts of a text: everything in front of the first null but blanks and dashes. */
  function Clean(src: string): (t: string) {
    if src == [] || src[0] == '\0' then []
    else if src[0] in {' ', '\t', '\r', '\n', '-'} then Clean(src[1..])
    else [src[0]] + Clean(src[1..])
  }

  lemma {:induction false} CleanHas(src: string)
    ensures forall c | c in Clean(src) :: c != '\0' && !Separator(c)
  {
    if src != [] {
      CleanHas(src[1..]);
    }
  }

  lemma {:induction false} ReadClean(src: string, room: nat, n: nat, crc: Sym, count: nat)
    ensures Read(src, room, n, crc, count) == Read(Clean(src), room, n, crc, count)
  {
    hide Crc5, Crc5Step, SymValue, SymBits, SymOf;
    if src != [] && src[0] != '\0' {
      var t := Clean(src);
      if Separator(src[0]) {
        ReadClean(src[1..], room, n, crc, count);
      } else {
        assert t[0] == src[0] && t[1..] == Clean(src[1..]);
        if SymOf(src[0]) >= 0 {
          var sym := SymValue(src[0]);
          ReadClean(src[1..], room, n, 0, 0);
          ReadClean(src[1..], room - Min(5, room), n, if n != 0 then Crc5(sym, crc) else crc,
                    if n != 0 then count + 1 else count);
        }
      }
    }
  }

  lemma {:induction false} CleanSplit(a: string, b: string)
    requires '\0' !in a
    ensures Clean(a + b) == Clean(a) + Clean(b)
  {
    if a == [] {
      assert a + b == b;
    } else {
      assert (a + b)[1..] == a[1..] + b;
      CleanSplit(a[1..], b);
    }
  }

  lemma {:induction false} CleanStops(a: string, b: string)
    requires '\0' in a
    ensures Clean(a + b) == Clean(a)
  {
    if a[0] != '\0' {
      assert (a + b)[1..] == a[1..] + b;
      CleanStops(a[1..], b);
    }
  }

  /** A blank or a dash more or less, anywhere in a text, makes no difference. */
  lemma SeparatorsIgnored(src: string, k: nat, c: char, room: nat, n: nat)
    requires k <= |src| && (c == ' ' || c == '\t' || c == '\r' || c == '\n' || c == '-')
    ensures DecodeText(src[..k] + [c] + src[k..], room, n) == DecodeText(src, room, n)
  {
    hide Read, Clean;
    assert src[..k] + src[k..] == src && src[..k] + [c] + src[k..] == src[..k] + ([c] + src[k..]);
    if '\0' in src[..k] {
      CleanStops(src[..k], src[k..]);
      CleanStops(src[..k], [c] + src[k..]);
    } else {
      CleanSplit(src[..k], src[k..]);
      CleanSplit(src[..k], [c] + src[k..]);
      CleanFirst(c, src[k..]);
    }
    ReadClean(src, room, n, 0, 0);
    ReadClean(src[..k] + [c] + src[k..], room, n, 0, 0);
  }

  lemma CleanFirst(c: char, rest: string)
    ensures c in {' ', '\t', '\r', '\n', '-'} ==> Clean([c] + rest) == Clean(rest)
    ensures c !in {' ', '\t', '\r', '\n', '-'} && c != '\0' ==> Clean([c] + rest) == [c] + Clean(rest)
    ensures c == '\0' ==> Clean([c] + rest) == []
  {
    assert ([c] + rest)[1..] == rest;
  }

  /** Nothing behind the first null matters. */
  lemma NullEnds(src: string, rest: string, room: nat, n: nat)
    ensures DecodeText(src + ['\0'] + rest, room, n) == DecodeText(src, room, n)
  {
    hide Read, Clean;
    assert src + ['\0'] + rest == src + (['\0'] + rest);
    if '\0' in src {
      CleanStops(src, ['\0'] + rest);
    } else {
      CleanSplit(src, ['\0'] + rest);
      CleanFirst('\0', rest);
      assert Clean(src) + [] == Clean(src);
    }
    ReadClean(src, room, n, 0, 0);
    ReadClean(src + ['\0'] + rest, room, n, 0, 0);
  }

  lemma {:induction false} StrangeSymbol(t: string, j: nat, room: nat, n: nat, crc: Sym, count: nat)
    requires j < |t| && SymOf(t[j]) < 0 && (n == 0 ==> 5 * j < room + 5) && count <= n
    requires forall c | c in t :: c != '\0' && !Separator(c)
    ensures Read(t, room, n, crc, count) == Bad
    decreases j
  {
    hide Crc5, Crc5Step, SymValue, SymBits, SymOf, Separator;
    if j > 0 && SymOf(t[0]) >= 0 {
      assert t[0] in t && forall c | c in t[1..] :: c in t;
      var sym := SymValue(t[0]);
      if n > 0 && count == n {
        StrangeSymbol(t[1..], j - 1, room, n, 0, 0);
      } else if room > 0 {
        StrangeSymbol(t[1..], j - 1, room - Min(5, room), n, if n != 0 then Crc5(sym, crc) else crc,
                      if n != 0 then count + 1 else count);
      }
    } else {
      assert t[0] in t;
    }
  }

  /** Any other character that is no symbol is refused: wherever it stands with CRCs on, and
      without them as far as reading goes, which is one symbol further than there is room for. */
  lemma StrangeRefused(src: string, k: nat, room: nat, n: nat)
    requires k < |src| && '\0' !in src[..k + 1] && src[k] !in MAP
    requires src[k] != ' ' && src[k] != '\t' && src[k] != '\r' && src[k] != '\n' && src[k] != '-'
    requires n == 0 ==> 5 * |Clean(src[..k])| < room + 5
    ensures DecodeText(src, room, n) == Bad
  {
    hide Read, Clean, SymOf;
    assert src[..k + 1] == src[..k] + [src[k]] && src == src[..k] + ([src[k]] + src[k + 1..]);
    CleanSplit(src[..k], [src[k]] + src[k + 1..]);
    CleanFirst(src[k], src[k + 1..]);
    var j := |Clean(src[..k])|;
    assert Clean(src)[j] == src[k];
    SymOfIsMap(src[k]);
    assert SymOf(src[k]) < 0 by {
      MapHas(src[k]);
    }
    CleanHas(src);
    ReadClean(src, room, n, 0, 0);
    StrangeSymbol(Clean(src), j, room, n, 0, 0);
  }

  lemma MapHas(c: char)
    ensures SymOf(c) >= 0 ==> c in MAP
  {
    hide SymOf;
    SymOfIsMap(c);
    if SymOf(c) >= 0 {
      assert MAP[SymOf(c)] in MAP;
    }
  }

  /** The symbols whose characters these are. */
  function Values(t: string): (syms: seq<Sym>)
    requires forall c | c in t :: SymOf(c) >= 0
    ensures |syms| == |t|
  {
    seq(|t|, i requires 0 <= i < |t| => SymValue(t[i]))
  }

  lemma ValueChar(c: char)
    requires SymOf(c) >= 0
    ensures CharOf(SymValue(c)) == c
  {
    hide SymOf;
    SymOfIsMap(c);
    ToSymBack(SymOf(c));
  }

  lemma {:induction false} WriteValues(t: string, crc: Sym, count: nat)
    requires forall c | c in t :: SymOf(c) >= 0
    ensures Write(Values(t), 0, crc, count) == t
  {
    hide SymOf, SymValue, CharOf;
    if t != [] {
      assert t[0] in t && forall c | c in t[1..] :: c in t;
      assert Values(t)[1..] == Values(t[1..]);
      ValueChar(t[0]);
      WriteValues(t[1..], crc, count);
    }
  }

  lemma {:induction false} PlainStops(t: string, k: nat, room: nat, crc: Sym)
    requires k <= |t| && 5 * k >= room + 5
    requires forall c | c in t :: c != '\0' && !Separator(c)
    ensures Read(t, room, 0, crc, 0) == Read(t[..k], room, 0, crc, 0)
    decreases k
  {
    hide SymValue, SymBits, SymOf, Separator;
    assert t[..k][1..] == t[1..][..k - 1] && t[0] in t;
    if SymOf(t[0]) >= 0 && room > 0 {
      assert forall c | c in t[1..] :: c in t;
      PlainStops(t[1..], k - 1, room - Min(5, room), crc);
    }
  }

  /** Without CRCs a text is accepted exactly if what is read of it are symbols, up to one more than
      there is room for, and their bits are what comes out. */
  lemma PlainAccepted(src: string, room: nat)
    ensures var t := Clean(src);
      var read := t[..Min(|t|, (room + 4) / 5 + 1)];
      && (DecodeText(src, room, 0).Bits? <==> forall c | c in read :: c in MAP)
      && ((forall c | c in read :: SymOf(c) >= 0) ==>
            DecodeText(src, room, 0) == Bits(AllBits(Values(read))[..Min(room, 5 * |read|)]))
  {
    hide Read, Clean, SymOf, SymValue, SymBits, Separator, CharOf;
    var t := Clean(src);
    var k := Min(|t|, (room + 4) / 5 + 1);
    var read := t[..k];
    CleanHas(src);
    ReadClean(src, room, 0, 0, 0);
    if k < |t| {
      PlainStops(t, k, room, 0);
    } else {
      assert read == t;
    }
    forall c | c in read ensures SymOf(c) >= 0 <==> c in MAP {
      MapHas(c);
      SymOfIsMap(c);
    }
    if forall c | c in read :: SymOf(c) >= 0 {
      WriteValues(read, 0, 0);
      ReadWrite(Values(read), room, 0, 0, 0);
    } else {
      var j :| 0 <= j < k && SymOf(read[j]) < 0;
      assert forall c | c in read :: c in t;
      StrangeSymbol(read, j, room, 0, 0, 0);
    }
  }

  /** With CRCs on, what is accepted was written with them. */
  lemma {:induction false} AcceptedIsWritten(t: string, room: nat, n: nat, crc: Sym, count: nat)
    returns (syms: seq<Sym>)
    requires count < n && Read(t, room, n, crc, count).Bits?
    requires forall c | c in t :: c != '\0' && !Separator(c)
    ensures t == Write(syms, n, crc, count) && WholeGroups(|syms|, count, n)
    decreases |t|
  {
    hide Crc5, Crc5Step, SymValue, SymBits, SymOf, Separator, CharOf, Read, Write;
    syms := [];
    WriteNone(n, crc, count);
    if t == [] {
      ReadEnd(room, n, crc, count);
    } else {
      assert t[0] in t && forall c | c in t[1..] :: c in t;
      ReadFirst(t, room, n, crc, count);
      var s := SymValue(t[0]);
      var next, space := Crc5(s, crc), room - Min(5, room);
      if count + 1 < n {
        var rest := AcceptedIsWritten(t[1..], space, n, next, count + 1);
        syms := [s] + rest;
        WriteMore(s, rest, n, crc, count);
        assert t == [t[0]] + t[1..];
      } else {
        assert t[1..] != [] ==> t[1] in t;
        ReadGroupEnd(t[1..], space, n, next);
        assert t[1..][1..] == t[2..] && forall c | c in t[2..] :: c in t;
        var rest := AcceptedIsWritten(t[2..], space, n, 0, 0);
        syms := [s] + rest;
        WriteMore(s, rest, n, crc, count);
        assert t == [t[0], t[1]] + t[2..];
      }
    }
  }

  lemma WriteNone(n: nat, crc: Sym, count: nat)
    ensures Write([], n, crc, count) == []
  {}

  lemma WriteMore(s: Sym, rest: seq<Sym>, n: nat, crc: Sym, count: nat)
    requires n > 0
    ensures Write([s] + rest, n, crc, count) ==
      if count + 1 == n then [CharOf(s), CharOf(Crc5(s, crc))] + Write(rest, n, 0, 0)
      else [CharOf(s)] + Write(rest, n, Crc5(s, crc), count + 1)
  {
    hide Crc5, CharOf;
    assert ([s] + rest)[1..] == rest;
  }

  lemma ReadEnd(room: nat, n: nat, crc: Sym, count: nat)
    ensures n > 0 && Read([], room, n, crc, count).Bits? ==> count == 0
  {}

  /** The first symbol of an accepted text, and the rest it leaves. */
  lemma ReadFirst(t: string, room: nat, n: nat, crc: Sym, count: nat)
    requires t != [] && count < n && Read(t, room, n, crc, count).Bits? && t[0] != '\0' && !Separator(t[0])
    ensures SymOf(t[0]) >= 0 && CharOf(SymValue(t[0])) == t[0]
    ensures Read(t[1..], room - Min(5, room), n, Crc5(SymValue(t[0]), crc), count + 1).Bits?
  {
    hide Crc5, SymValue, SymBits, SymOf, Separator, CharOf;
    ValueChar(t[0]);
  }

  /** At the end of a group an accepted text has the CRC. */
  lemma ReadGroupEnd(t: string, room: nat, n: nat, crc: Sym)
    requires n > 0 && Read(t, room, n, crc, n).Bits? && (t != [] ==> t[0] != '\0' && !Separator(t[0]))
    ensures t != [] && t[0] == CharOf(crc) && Read(t[1..], room, n, 0, 0).Bits?
  {
    hide Crc5, SymValue, SymBits, SymOf, Separator, CharOf;
    if t != [] {
      ValueChar(t[0]);
    }
  }

  /** A text of whole groups of symbols, each followed by its CRC, that there is room for. */
  ghost predicate IsWritten(src: string, room: nat, n: nat, syms: seq<Sym>)
    requires n > 0
  {
    Clean(src) == Write(syms, n, 0, 0) && |syms| % n == 0 && 5 * |syms| < room + 5
  }

  /** With CRCs on a text is accepted exactly if, blanks and dashes aside, it is one that the encoder
      writes and that there is room for, and then its bits are what comes out. */
  lemma AcceptedIff(src: string, room: nat, n: nat)
    requires n > 0
    ensures DecodeText(src, room, n).Bits? <==> exists syms :: IsWritten(src, room, n, syms)
    ensures forall syms | IsWritten(src, room, n, syms) ::
      DecodeText(src, room, n) == Bits(AllBits(syms)[..Min(room, 5 * |syms|)])
  {
    hide Read, Clean, SymOf, SymValue, SymBits, Separator, CharOf, Write;
    CleanHas(src);
    ReadClean(src, room, n, 0, 0);
    forall syms | IsWritten(src, room, n, syms)
      ensures DecodeText(src, room, n) == Bits(AllBits(syms)[..Min(room, 5 * |syms|)])
    {
      WholeGroupsModulo(|syms|, 0, n);
      ReadWrite(syms, room, n, 0, 0);
    }
    if DecodeText(src, room, n).Bits? {
      var syms := AcceptedIsWritten(Clean(src), room, n, 0, 0);
      WholeGroupsModulo(|syms|, 0, n);
      ReadWrite(syms, room, n, 0, 0);
      assert IsWritten(src, room, n, syms);
    }
  }

  // ----- Error detection -----

  /** With different registers in the middle of a group, at most one reading can succeed. */
  lemma {:induction false} Diverged(src: string, room: nat, n: nat, good: Sym, wrong: Sym, count: nat)
    requires 0 < count <= n && good != wrong
    requires Read(src, room, n, good, count).Bits?
    ensures Read(src, room, n, wrong, count) == Bad
  {
    hide Crc5, Crc5Step, SymValue, SymBits, SymOf, Separator, CharOf;
    if Separator(src[0]) {
      Diverged(src[1..], room, n, good, wrong, count);
    } else if count < n {
      var sym := SymValue(src[0]);
      Crc5Injective(good, wrong, sym);
      Diverged(src[1..], room - Min(5, room), n, Crc5(sym, good), Crc5(sym, wrong), count + 1);
    }
  }

  lemma {:induction false} SubstitutionHere(src: string, c: char, room: nat, n: nat, crc: Sym, count: nat)
    requires 0 < n && count <= n && 0 < |src|
    requires 0 <= SymOf(src[0]) != SymOf(c) && 0 <= SymOf(c)
    requires Read(src, room, n, crc, count).Bits?
    ensures Read([c] + src[1..], room, n, crc, count) == Bad
  {
    hide Crc5, Crc5Step, SymValue, SymBits, SymOf, Separator, CharOf;
    var bad := [c] + src[1..];
    SymbolsAreNotSeparators(src[0]);
    SymbolsAreNotSeparators(c);
    assert bad[1..] == src[1..];
    var s, t := SymValue(src[0]), SymValue(c);
    SymValueInjective(src[0], c);
    if count < n && room > 0 {
      Crc5Injective(s, t, crc);
      Diverged(src[1..], room - Min(5, room), n, Crc5(s, crc), Crc5(t, crc), count + 1);
    }
  }

  /** Replacing one symbol of an accepted CRC text by a different symbol. */
  lemma {:induction false} Substitution(src: string, j: nat, c: char, room: nat, n: nat, crc: Sym, count: nat)
    requires 0 < n && count <= n && j < |src| && '\0' !in src[..j]
    requires 0 <= SymOf(src[j]) != SymOf(c) && 0 <= SymOf(c)
    requires Read(src, room, n, crc, count).Bits?
    ensures Read(src[j := c], room, n, crc, count) == Bad
  {
    hide Crc5, Crc5Step, SymValue, SymBits, SymOf, Separator, CharOf;
    var bad := src[j := c];
    if j == 0 {
      SubstitutionHere(src, c, room, n, crc, count);
      assert bad == [c] + src[1..];
    } else {
      assert bad[1..] == src[1..][j - 1 := c];
      assert '\0' !in src[1..][..j - 1];
      if Separator(src[0]) {
        Substitution(src[1..], j - 1, c, room, n, crc, count);
      } else if count == n {
        Substitution(src[1..], j - 1, c, room, n, 0, 0);
      } else if room > 0 {
        Substitution(src[1..], j - 1, c, room - Min(5, room), n, Crc5(SymValue(src[0]), crc), count + 1);
      }
    }
  }

  lemma SymValueIs(c: char)
    requires SymOf(c) >= 0
    ensures SymValue(c) == SymOf(c) as Sym
  {}

  lemma SymValueInjective(c: char, d: char)
    requires SymOf(c) >= 0 && SymOf(d) >= 0 && SymOf(c) != SymOf(d)
    ensures SymValue(c) != SymValue(d)
  {
    hide SymOf;
    ToSymInjective(SymOf(c), SymOf(d));
  }

  lemma ToSymInjective(i: nat, j: nat)
    requires i < 32 && j < 32 && i != j
    ensures i as Sym != j as Sym
  {
    ToSymBack(i);
    ToSymBack(j);
  }

  lemma ToSymBack(i: nat)
    requires i < 32
    ensures (i as Sym) as int == i
  {}

  lemma SymbolsAreNotSeparators(c: char)
    requires SymOf(c) >= 0
    ensures !Separator(c) && c != '\0'
  {}

  /** The place in its group of the next symbol after text src; n is the place of the CRC. */
  function GroupPlace(src: string, n: nat, count: nat): nat {
    if src == [] then count
    else if Separator(src[0]) then GroupPlace(src[1..], n, count)
    else GroupPlace(src[1..], n, if count == n then 0 else count + 1)
  }

  /** Nothing but separators strictly between two places. */
  ghost predicate OnlySeparators(src: string, i: nat, j: nat)
    requires j <= |src|
  {
    forall k | i < k < j :: Separator(src[k])
  }

  function Swapped(src: string, i: nat, j: nat): (t: string)
    requires i < j < |src|
    ensures |t| == |src|
  {
    src[i := src[j]][j := src[i]]
  }

  /** Swapping two different data symbols that are neighbours in a group, be there separators
      between them or not. */
  lemma {:induction false} Swap(src: string, i: nat, j: nat, room: nat, n: nat, crc: Sym, count: nat)
    requires 0 < n && count <= n && i < j < |src| && '\0' !in src[..i]
    requires 0 <= SymOf(src[i]) && 0 <= SymOf(src[j]) && src[i] != src[j] && OnlySeparators(src, i, j)
    requires GroupPlace(src[..i], n, count) + 1 < n
    requires Read(src, room, n, crc, count).Bits?
    ensures Read(Swapped(src, i, j), room, n, crc, count) == Bad
    decreases i
  {
    hide Crc5, Crc5Step, SymValue, SymBits, SymOf, Separator, CharOf;
    if i == 0 {
      SwapFirst(src, j, room, n, crc, count);
    } else {
      assert Swapped(src, i, j)[1..] == Swapped(src[1..], i - 1, j - 1);
      assert src[..i][1..] == src[1..][..i - 1];
      if Separator(src[0]) {
        Swap(src[1..], i - 1, j - 1, room, n, crc, count);
      } else if count == n {
        Swap(src[1..], i - 1, j - 1, room, n, 0, 0);
      } else if room > 0 {
        Swap(src[1..], i - 1, j - 1, room - Min(5, room), n, Crc5(SymValue(src[0]), crc), count + 1);
      }
    }
  }

  lemma {:induction false} SkipSeparators(src: string, k: nat, room: nat, n: nat, crc: Sym, count: nat)
    requires k <= |src| && forall l | 0 <= l < k :: Separator(src[l])
    ensures Read(src, room, n, crc, count) == Read(src[k..], room, n, crc, count)
    decreases k
  {
    hide SymValue, SymBits, SymOf, Crc5;
    if k == 0 {
      assert src[0..] == src;
    } else {
      SkipSeparators(src[1..], k - 1, room, n, crc, count);
      assert src[1..][k - 1..] == src[k..];
    }
  }

  /** Reading one data symbol. */
  lemma ReadOne(src: string, room: nat, n: nat, crc: Sym, count: nat)
    requires |src| >= 1 && count < n && SymOf(src[0]) >= 0
    ensures Read(src, room, n, crc, count)
         == if room == 0 then Bad
            else Prepend(SymBits(SymValue(src[0]))[..Min(5, room)],
                         Read(src[1..], room - Min(5, room), n, Crc5(SymValue(src[0]), crc), count + 1))
  {
    SymbolsAreNotSeparators(src[0]);
  }

  /** Two data symbols at 0 and k. */
  lemma ReadTwo(src: string, k: nat, room: nat, n: nat, crc: Sym, count: nat)
    requires 0 < k < |src| && count + 1 < n && OnlySeparators(src, 0, k)
    requires 0 <= SymOf(src[0]) && 0 <= SymOf(src[k])
    ensures var s, t, space := SymValue(src[0]), SymValue(src[k]), room - Min(5, room);
      Read(src, room, n, crc, count)
        == if room == 0 || space == 0 then Bad
           else Prepend(SymBits(s)[..Min(5, room)],
                        Prepend(SymBits(t)[..Min(5, space)],
                                Read(src[k + 1..], space - Min(5, space), n, Crc5(t, Crc5(s, crc)), count + 2)))
  {
    hide Crc5, SymValue, SymBits, SymOf, Separator, Read;
    var s, space := SymValue(src[0]), room - Min(5, room);
    ReadOne(src, room, n, crc, count);
    SkipSeparators(src[1..], k - 1, space, n, Crc5(s, crc), count + 1);
    assert src[1..][k - 1..] == src[k..] && src[k..][1..] == src[k + 1..];
    ReadOne(src[k..], space, n, Crc5(s, crc), count + 1);
  }

  lemma SwapFirst(src: string, k: nat, room: nat, n: nat, crc: Sym, count: nat)
    requires 0 < k < |src| && count + 1 < n && OnlySeparators(src, 0, k)
    requires 0 <= SymOf(src[0]) && 0 <= SymOf(src[k]) && src[0] != src[k]
    requires Read(src, room, n, crc, count).Bits?
    ensures Read(Swapped(src, 0, k), room, n, crc, count) == Bad
  {
    hide Crc5, SymValue, SymBits, SymOf, Separator, Read;
    var bad := Swapped(src, 0, k);
    var s, t := SymValue(src[0]), SymValue(src[k]);
    var space := room - Min(5, room);
    SymOfIsMap(src[0]);
    SymOfIsMap(src[k]);
    SymValueInjective(src[0], src[k]);
    ReadTwo(src, k, room, n, crc, count);
    ReadTwo(bad, k, room, n, crc, count);
    assert bad[k + 1..] == src[k + 1..];
    Crc5Transposition(s, t, crc, Crc5(s, crc), Crc5(t, crc));
    Diverged(src[k + 1..], space - Min(5, space), n, Crc5(t, Crc5(s, crc)), Crc5(s, Crc5(t, crc)), count + 2);
  }

  /** Every accepted CRC text, whatever its separators: changing any one of its symbols, or
      swapping two neighbouring data symbols of a group, makes the decoder return -1. */
  lemma SingleErrorsDetected(src: string, room: nat, n: nat)
    requires n > 0 && '\0' !in src && DecodeText(src, room, n).Bits?
    ensures forall j: nat, c: char | j < |src| && SymOf(src[j]) >= 0 && SymOf(c) >= 0 && SymOf(c) != SymOf(src[j]) ::
              DecodeText(src[j := c], room, n) == Bad
    ensures forall i: nat, j: nat | Neighbours(src, i, j, n) :: DecodeText(Swapped(src, i, j), room, n) == Bad
  {
    hide Crc5, Crc5Step, SymValue, SymBits, SymOf, Separator, CharOf;
    forall j: nat, c: char | j < |src| && SymOf(src[j]) >= 0 && SymOf(c) >= 0 && SymOf(c) != SymOf(src[j])
      ensures DecodeText(src[j := c], room, n) == Bad
    {
      Substitution(src, j, c, room, n, 0, 0);
    }
    forall i: nat, j: nat | Neighbours(src, i, j, n) ensures DecodeText(Swapped(src, i, j), room, n) == Bad {
      Swap(src, i, j, room, n, 0, 0);
    }
  }

  /** Two different data symbols of one group with at most separators between them. */
  ghost predicate Neighbours(src: string, i: nat, j: nat, n: nat) {
    && i < j < |src| && SymOf(src[i]) >= 0 && SymOf(src[j]) >= 0 && src[i] != src[j]
    && OnlySeparators(src, i, j) && GroupPlace(src[..i], n, 0) + 1 < n
  }

  // ----- The encoder -----

  lemma {:induction false} WriteLength(syms: seq<Sym>, n: nat, crc: Sym, count: nat)
    requires n > 0 ==> count < n
    ensures |Write(syms, n, crc, count)| == |syms| + (if n == 0 then 0 else (count + |syms|) / n)
  {
    hide Crc5, Crc5Step;
    if syms == [] {
      if n > 0 {
        DivModUnique(count, n, 0, count);
      }
    } else if n == 0 {
      WriteLength(syms[1..], n, crc, count);
    } else if count + 1 == n {
      WriteLength(syms[1..], n, 0, 0);
      AddModulus(|syms| - 1, n);
    } else {
      WriteLength(syms[1..], n, Crc5(syms[0], crc), count + 1);
    }
  }

  /** The symbol the encoder cuts out of two neighbouring bytes, where `left` bits of the
      source remain; the second byte does not matter when only one bit remains. */
  function Raw(b0: bv8, b1: bv8, off: nat, left: nat): bv16
    requires off < 8
  {
    if off <= 3 then Shr(b0 as bv16, 3 - off)
    else if left > 1 then Shl(b0 as bv16, off - 3) | Shr(b1 as bv16, 11 - off)
    else Shl(b0 as bv16, off - 3)
  }

  function Trim(raw: bv16, left: nat): bv16
    requires left >= 1
  {
    if left < 5 then raw & 0x1f & Shl(0x1f, 5 - left) else raw & 0x1f
  }

  function CutSymbol(b0: bv8, b1: bv8, off: nat, left: nat): (sym: bv16)
    requires off < 8 && left >= 1
  {
    Trim(Raw(b0, b1, off, left), left)
  }

  lemma CutSymbolBits(b0: bv8, b1: bv8, off: nat, left: nat, k: nat)
    requires off < 8 && left >= 1 && k < 5
    ensures CutSymbol(b0, b1, off, left) < 32
    ensures SymBit(CutSymbol(b0, b1, off, left) as Sym, k)
         == (k < left && if off + k < 8 then ByteBit(b0, off + k) else ByteBit(b1, off + k - 8))
  {
    hide Raw, Trim, WordBit, SymBit, ByteBit;
    TrimBits(Raw(b0, b1, off, left), left, k);
    if k < left {
      RawBits(b0, b1, off, left, k);
    }
  }

  /** Bit k of the low five bits of a word, counted from the most significant. */
  predicate WordBit(w: bv16, k: nat)
    requires k < 5
  {
    if k == 0 then w & 16 != 0
    else if k == 1 then w & 8 != 0
    else if k == 2 then w & 4 != 0
    else if k == 3 then w & 2 != 0
    else w & 1 != 0
  }

  lemma TrimBits(raw: bv16, left: nat, k: nat)
    requires left >= 1 && k < 5
    ensures Trim(raw, left) < 32
    ensures SymBit(Trim(raw, left) as Sym, k) == (k < left && WordBit(raw, k))
  {
    if k == 0 {} else if k == 1 {} else if k == 2 {} else if k == 3 {} else {}
  }

  lemma RawBits(b0: bv8, b1: bv8, off: nat, left: nat, k: nat)
    requires off < 8 && k < left && k < 5
    ensures WordBit(Raw(b0, b1, off, left), k)
         == if off + k < 8 then ByteBit(b0, off + k) else ByteBit(b1, off + k - 8)
  {
    hide WordBit, Raw, ByteBit;
    if off < 4 {
      RawBitsLow(b0, b1, off, left, k);
    } else if off < 6 {
      RawBitsMiddle(b0, b1, off, left, k);
    } else {
      RawBitsHigh(b0, b1, off, left, k);
    }
  }

  lemma RawBitsLow(b0: bv8, b1: bv8, off: nat, left: nat, k: nat)
    requires off < 4 && k < left && k < 5
    ensures WordBit(Raw(b0, b1, off, left), k) == ByteBit(b0, off + k)
  {
    if off == 0 {} else if off == 1 {} else if off == 2 {} else {}
  }

  lemma RawBitsMiddle(b0: bv8, b1: bv8, off: nat, left: nat, k: nat)
    requires 4 <= off < 6 && k < left && k < 5
    ensures WordBit(Raw(b0, b1, off, left), k)
         == if off + k < 8 then ByteBit(b0, off + k) else ByteBit(b1, off + k - 8)
  {
    if off == 4 {} else {}
  }

  lemma RawBitsHigh(b0: bv8, b1: bv8, off: nat, left: nat, k: nat)
    requires 6 <= off < 8 && k < left && k < 5
    ensures WordBit(Raw(b0, b1, off, left), k)
         == if off + k < 8 then ByteBit(b0, off + k) else ByteBit(b1, off + k - 8)
  {
    if off == 6 {} else {}
  }

  lemma CutSymbolIsPack(src: seq<bv8>, n: nat, i: nat, b1: bv8)
    requires i < n <= 8 * |src|
    requires i % 8 > 3 && i + 1 < n ==> i / 8 + 1 < |src| ==> b1 == src[i / 8 + 1]
    ensures CutSymbol(src[i / 8], b1, i % 8, n - i) < 32
    ensures CutSymbol(src[i / 8], b1, i % 8, n - i) as Sym == Pack(BitsOf(src, n)[i..][..Min(5, n - i)])
  {
    hide CutSymbol, Pack, SymBit;
    var w := BitsOf(src, n)[i..][..Min(5, n - i)];
    CutSymbolBits(src[i / 8], b1, i % 8, n - i, 0);
    var sym := CutSymbol(src[i / 8], b1, i % 8, n - i) as Sym;
    forall k: nat | k < 5 ensures SymBit(sym, k) == SymBit(Pack(w), k) {
      PackBits(w, k);
      CutSymbolBits(src[i / 8], b1, i % 8, n - i, k);
      if k < n - i {
        assert w[k] == BitAt(src, i + k);
        if i % 8 + k < 8 {
          DivModUnique(i + k, 8, i / 8, i % 8 + k);
        } else {
          DivModUnique(i + k, 8, i / 8 + 1, i % 8 + k - 8);
        }
      }
    }
    SymExtensional(sym, Pack(w));
  }

  /** The characters the encoder needs, terminating null included. */
  function EncodedSize(bits: seq<bool>, n: nat): nat {
    var syms := |Symbols(bits)|;
    syms + (if n == 0 then 0 else syms / n) + 1
  }

  /** What the encoder accepts: whole groups and enough room. */
  predicate Encodable(bits: seq<bool>, n: nat, destlen: int) {
    && (n > 0 ==> |Symbols(bits)| % n == 0)
    && EncodedSize(bits, n) <= destlen
  }

  /** Whether the symbol at bit i is cut from two bytes. */
  predicate UsesNextByte(n: nat, i: nat) {
    i % 8 > 3 && i + 1 < n
  }

  /** Whether the encoder looks at the byte behind the last one that holds bits: its last symbol
      starts in the low half of that byte, and has more than one bit. */
  predicate ReadsPast(n: nat) {
    n > 0 && var i := 5 * ((n - 1) / 5); UsesNextByte(n, i) && i / 8 == (n - 1) / 8
  }

  /** The bytes the encoder needs to be readable. */
  function SourceBytes(n: nat): nat {
    BytesFor(n) + if ReadsPast(n) then 1 else 0
  }

  lemma NextByteThere(n: nat, i: nat)
    requires i % 5 == 0 && i < n && UsesNextByte(n, i)
    ensures i / 8 + 1 < SourceBytes(n)
    ensures i / 8 + 1 >= BytesFor(n) ==> ReadsPast(n)
  {
    if i / 8 == (n - 1) / 8 {
      DivModUnique(n - 1, 5, i / 5, n - 1 - i);
    }
  }

  lemma LastSymbol(n: nat)
    requires n > 0
    ensures var i := 5 * ((n - 1) / 5);
      && 0 <= i < n && i % 5 == 0
      && (i / 8 == (n - 1) / 8 ==> i / 8 + 1 >= BytesFor(n))
  {
    var q := (n - 1) / 5;
    QuotientNonNegative(n - 1, 5);
    DivModUnique(5 * q, 5, q, 0);
  }

  /** Some symbol is cut from a byte behind the source exactly in that case. */
  lemma ReadsPastIff(n: nat)
    ensures ReadsPast(n) <==> exists i :: 0 <= i < n && i % 5 == 0 && UsesNextByte(n, i) && i / 8 + 1 >= BytesFor(n)
  {
    hide BytesFor;
    if ReadsPast(n) {
      LastSymbol(n);
      var i := 5 * ((n - 1) / 5);
      assert UsesNextByte(n, i) && i / 8 + 1 >= BytesFor(n);
    } else {
      hide ReadsPast;
      forall i | 0 <= i < n && i % 5 == 0 && UsesNextByte(n, i) ensures i / 8 + 1 < BytesFor(n) {
        NextByteThere(n, i);
      }
    }
  }

  /** The byte behind the one a symbol starts in, where it is looked at. */
  function NextByte(src: seq<bv8>, n: nat, i: nat): bv8
    requires UsesNextByte(n, i) ==> i / 8 + 1 < |src|
  {
    if UsesNextByte(n, i) then src[i / 8 + 1] else 0
  }

  /** Lines 71-91: the symbol that starts at bit i. */
  method NextSymbol(src: seq<bv8>, srclenBits: nat, i: nat) returns (symbol: Sym)
    requires i < srclenBits <= 8 * |src| && (UsesNextByte(srclenBits, i) ==> i / 8 + 1 < |src|)
    ensures symbol == Pack(BitsOf(src, srclenBits)[i..][..Min(5, srclenBits - i)])
  {
    hide Pack, BitsOf, Raw, Trim, Shl;
    var b1: bv8 := 0;
    if UsesNextByte(srclenBits, i) {
      b1 := src[i / 8 + 1];
    }
    var sym := LoadSymbol(src[i / 8], b1, i % 8, srclenBits - i);
    ghost var raw := sym;
    sym := sym & 0x1f;
    if srclenBits - i < 5 {
      sym := sym & Shl(0x1f, 5 + i - srclenBits);
    }
    assert sym == Trim(raw, srclenBits - i) by { TrimIs(raw, srclenBits - i); }
    FinishSymbol(src, srclenBits, i, sym);
    symbol := sym as Sym;
  }

  /** The symbols the loop asks for never lie behind the readable bytes. */
  method FetchSymbol(src: seq<bv8>, srclenBits: nat, i: nat) returns (symbol: Sym)
    requires i < srclenBits && i % 5 == 0 && SourceBytes(srclenBits) <= |src|
    ensures srclenBits <= 8 * |src| && symbol == Pack(BitsOf(src, srclenBits)[i..][..Min(5, srclenBits - i)])
  {
    EnoughBytes(srclenBits, |src|);
    if UsesNextByte(srclenBits, i) {
      NextByteThere(srclenBits, i);
    }
    hide Pack, BitsOf;
    symbol := NextSymbol(src, srclenBits, i);
  }

  lemma EnoughBytes(n: nat, bytes: nat)
    requires SourceBytes(n) <= bytes
    ensures n <= 8 * bytes
  {}

  lemma TrimIs(raw: bv16, left: nat)
    requires left >= 1
    ensures Trim(raw, left) == if left < 5 then raw & 0x1f & Shl(0x1f, 5 - left) else raw & 0x1f
  {
    hide Shl;
  }

  /** Lines 75-85: the byte the symbol starts in, and what the next one adds. */
  method LoadSymbol(b0: bv8, b1: bv8, bitOffs: nat, left: nat) returns (sym: bv16)
    requires bitOffs < 8
    ensures sym == Raw(b0, b1, bitOffs, left)
  {
    hide Shl, Shr;
    if bitOffs <= 3 {
      return Shr(b0 as bv16, 3 - bitOffs);
    }
    if left > 1 {
      return Shl(b0 as bv16, bitOffs - 3) | Shr(b1 as bv16, 11 - bitOffs);
    }
    return Shl(b0 as bv16, bitOffs - 3);
  }

  lemma FinishSymbol(src: seq<bv8>, srclenBits: nat, i: nat, sym: bv16)
    requires i < srclenBits <= 8 * |src| && (UsesNextByte(srclenBits, i) ==> i / 8 + 1 < |src|)
    requires sym == CutSymbol(src[i / 8], NextByte(src, srclenBits, i), i % 8, srclenBits - i)
    ensures sym < 32 && sym as Sym == Pack(BitsOf(src, srclenBits)[i..][..Min(5, srclenBits - i)])
  {
    hide CutSymbol, Pack, BitsOf;
    CutSymbolIsPack(src, srclenBits, i, NextByte(src, srclenBits, i));
  }

  /** One symbol at the front of a written text, with its CRC when it ends a group. */
  lemma WriteStep(bits: seq<bool>, n: nat, crc: Sym, count: nat)
    requires bits != [] && (n > 0 ==> count < n)
    ensures var s := Pack(bits[..Min(5, |bits|)]);
      var rest := Symbols(bits[Min(5, |bits|)..]);
      Write(Symbols(bits), n, crc, count)
        == if n == 0 then [CharOf(s)] + Write(rest, n, crc, count)
           else if count + 1 == n then [CharOf(s), CharOf(Crc5(s, crc))] + Write(rest, n, 0, 0)
           else [CharOf(s)] + Write(rest, n, Crc5(s, crc), count + 1)
  {
    hide Crc5, Crc5Step, Pack, CharOf;
    assert Symbols(bits)[1..] == Symbols(bits[Min(5, |bits|)..]);
  }

  /** Lines 93-102: a symbol, and its CRC when it ends a group. */
  method PutSymbol(dest: array<char>, d: nat, sym: Sym, crc: Sym, count: nat, n: nat,
                   ghost text: string, ghost rest: seq<Sym>)
    returns (didx: nat, next: Sym, nextCount: nat)
    requires (n > 0 ==> count < n) && d <= |text| < dest.Length
    requires text[d..]
          == if n == 0 then [CharOf(sym)] + Write(rest, n, crc, count)
             else if count + 1 == n then [CharOf(sym), CharOf(Crc5(sym, crc))] + Write(rest, n, 0, 0)
             else [CharOf(sym)] + Write(rest, n, Crc5(sym, crc), count + 1)
    modifies dest
    ensures d <= didx <= |text| && text[didx..] == Write(rest, n, next, nextCount)
    ensures forall k | d <= k < didx :: dest[k] == text[k]
    ensures forall k | 0 <= k < dest.Length && !(d <= k < didx) :: dest[k] == old(dest[k])
    ensures n > 0 ==> nextCount < n
  {
    hide Crc5, Crc5Step, CharOf, Write;
    if n == 0 {
      Tail(text, d, CharOf(sym), Write(rest, n, crc, count));
      dest[d] := CharOf(sym);
      return d + 1, crc, count;
    }
    next := NextCrc(sym, crc);
    nextCount := count + 1;
    if nextCount == n {
      ghost var w := Write(rest, n, 0, 0);
      assert [CharOf(sym), CharOf(next)] + w == [CharOf(sym)] + ([CharOf(next)] + w);
      Tail(text, d, CharOf(sym), [CharOf(next)] + w);
      Tail(text, d + 1, CharOf(next), w);
      dest[d], dest[d + 1] := CharOf(sym), CharOf(next);
      return d + 2, 0, 0;
    }
    Tail(text, d, CharOf(sym), Write(rest, n, next, nextCount));
    dest[d] := CharOf(sym);
    didx := d + 1;
  }

  /** Writing the text behind a CRC register: lines 70-106, the loop and the terminator. */
  method EncodeLoop(dest: array<char>, src: seq<bv8>, srclenBits: nat, addCrcEvery: nat)
    requires SourceBytes(srclenBits) <= |src|
    requires |EncodeText(BitsOf(src, srclenBits), addCrcEvery)| < dest.Length
    modifies dest
    ensures var text := EncodeText(BitsOf(src, srclenBits), addCrcEvery);
      && dest[..|text|] == text && dest[|text|] == '\0'
      && forall k | |text| < k < dest.Length :: dest[k] == old(dest[k])
  {
    hide Crc5, Crc5Step, Pack, BitsOf, CharOf, Write, Symbols, SourceBytes;
    EnoughBytes(srclenBits, |src|);
    ghost var bits := BitsOf(src, srclenBits);
    ghost var text := EncodeText(bits, addCrcEvery);
    var crc: Sym, crcCount: nat, didx: nat, i: nat := 0, 0, 0, 0;
    assert bits[0..] == bits && text[0..] == text;
    while i < srclenBits
      invariant i % 5 == 0 && (addCrcEvery > 0 ==> crcCount < addCrcEvery)
      invariant didx <= |text|
      invariant forall k | 0 <= k < didx :: dest[k] == text[k]
      invariant text[didx..] == Write(Symbols(bits[Min(i, srclenBits)..]), addCrcEvery, crc, crcCount)
      invariant forall k | |text| < k < dest.Length :: dest[k] == old(dest[k])
    {
      var sym := FetchSymbol(src, srclenBits, i);
      WriteStep(bits[i..], addCrcEvery, crc, crcCount);
      ghost var rest := bits[Min(i + 5, srclenBits)..];
      assert bits[i..][Min(5, srclenBits - i)..] == rest;
      didx, crc, crcCount := PutSymbol(dest, didx, sym, crc, crcCount, addCrcEvery, text, Symbols(rest));
      i := i + 5;
    }
    WriteNothing(addCrcEvery, crc, crcCount);
    dest[didx] := '\0';
  }

  lemma Tail(text: string, d: nat, c: char, rest: string)
    requires d <= |text| && text[d..] == [c] + rest
    ensures d < |text| && text[d] == c && text[d + 1..] == rest
  {
    assert text[d..][0] == c && text[d..][1..] == rest;
  }

  lemma WriteNothing(n: nat, crc: Sym, count: nat)
    ensures Write(Symbols([]), n, crc, count) == []
  {}

  /** The source is readable as far as the code looks; the text depends on its first srclenBits
      bits only. */
  method Encode(dest: array<char>, destlen: int, src: seq<bv8>, srclenBits: nat, addCrcEvery: nat)
    returns (status: Status)
    requires 1 <= dest.Length && destlen <= dest.Length
    requires SourceBytes(srclenBits) <= |src|
    modifies dest
    ensures status.Success? <==> Encodable(BitsOf(src, srclenBits), addCrcEvery, destlen)
    ensures status.Success? ==>
              var text := EncodeText(BitsOf(src, srclenBits), addCrcEvery);
              && |text| < dest.Length
              && dest[..|text|] == text && dest[|text|] == '\0'
              && forall k | |text| < k < dest.Length :: dest[k] == old(dest[k])
    ensures status.Inval? ==> dest[0] == '\0' && dest[1..] == old(dest[1..])
  {
    hide Crc5, Crc5Step, Pack, BitsOf, CharOf, Write;
    dest[0] := '\0';
    var needed := (srclenBits + 4) / 5;
    if addCrcEvery != 0 {
      if needed % addCrcEvery != 0 {
        return Inval;
      }
      needed := needed + needed / addCrcEvery;
    }
    needed := needed + 1;
    if destlen < needed {
      return Inval;
    }
    WriteLength(Symbols(BitsOf(src, srclenBits)), addCrcEvery, 0, 0);
    EncodeLoop(dest, src, srclenBits, addCrcEvery);
    return Success;
  }

  // ----- The decoder -----

  /** Lines 148-149 and 152-156: the leading `width` bits of sym, placed behind the first
      p bits of a byte. */
  function PlaceBits(byte: bv8, sym: Sym, p: nat, width: nat): bv8
    requires p < 8 && 1 <= width <= 5
  {
    ((byte as bv16 | Chunk(sym, p, width)) & 0xff) as bv8
  }

  function Chunk(sym: Sym, p: nat, width: nat): bv16
    requires p < 8 && 1 <= width <= 5
  {
    var s, b := Shr(sym as bv16, 5 - width), Min(8 - p, width);
    Shr(Shl(s, 8 - p - b), width - b)
  }

  /** The bits of a byte from p on are clear. */
  predicate ClearFrom(byte: bv8, p: nat) {
    && (p <= 0 ==> !ByteBit(byte, 0)) && (p <= 1 ==> !ByteBit(byte, 1))
    && (p <= 2 ==> !ByteBit(byte, 2)) && (p <= 3 ==> !ByteBit(byte, 3))
    && (p <= 4 ==> !ByteBit(byte, 4)) && (p <= 5 ==> !ByteBit(byte, 5))
    && (p <= 6 ==> !ByteBit(byte, 6)) && (p <= 7 ==> !ByteBit(byte, 7))
  }

  lemma PlaceBitsCorrect(byte: bv8, sym: Sym, p: nat, width: nat, k: nat)
    requires p < 8 && 1 <= width <= 5 && k < 8 && ClearFrom(byte, p)
    ensures ByteBit(PlaceBits(byte, sym, p, width), k)
         == if k < p then ByteBit(byte, k) else k - p < width && SymBit(sym, k - p)
  {
    hide Chunk, ByteBit, SymBit, LowBit;
    OrBit(byte, Chunk(sym, p, width), k);
    ChunkBits(sym, p, width, k);
    if k >= p {
      ClearAt(byte, p, k);
    }
  }

  lemma ClearAt(byte: bv8, p: nat, k: nat)
    requires ClearFrom(byte, p) && p <= k < 8
    ensures !ByteBit(byte, k)
  {
    hide ByteBit;
    if k == 0 {} else if k == 1 {} else if k == 2 {} else if k == 3 {}
    else if k == 4 {} else if k == 5 {} else if k == 6 {} else {}
  }

  /** Bit k of the low byte of a word, counted from the most significant. */
  predicate LowBit(w: bv16, k: nat)
    requires k < 8
  {
    if k == 0 then w & 0x80 != 0 else if k == 1 then w & 0x40 != 0
    else if k == 2 then w & 0x20 != 0 else if k == 3 then w & 0x10 != 0
    else if k == 4 then w & 0x08 != 0 else if k == 5 then w & 0x04 != 0
    else if k == 6 then w & 0x02 != 0 else w & 0x01 != 0
  }

  lemma OrBit(byte: bv8, w: bv16, k: nat)
    requires k < 8
    ensures ByteBit(((byte as bv16 | w) & 0xff) as bv8, k) == (ByteBit(byte, k) || LowBit(w, k))
  {
    if k == 0 {} else if k == 1 {} else if k == 2 {} else if k == 3 {}
    else if k == 4 {} else if k == 5 {} else if k == 6 {} else {}
  }

  lemma ChunkBits(sym: Sym, p: nat, width: nat, k: nat)
    requires p < 8 && 1 <= width <= 5 && k < 8
    ensures LowBit(Chunk(sym, p, width), k) == (p <= k < p + width && SymBit(sym, k - p))
  {
    hide Chunk, LowBit, SymBit;
    if p < 3 {
      ChunkBitsLow(sym, p, width, k);
    } else if p < 6 {
      ChunkBitsMiddle(sym, p, width, k);
    } else {
      ChunkBitsHigh(sym, p, width, k);
    }
  }

  lemma ChunkBitsLow(sym: Sym, p: nat, width: nat, k: nat)
    requires p < 3 && 1 <= width <= 5 && k < 8
    ensures LowBit(Chunk(sym, p, width), k) == (p <= k < p + width && SymBit(sym, k - p))
  {
    if p == 0 {} else if p == 1 {} else {}
  }

  lemma ChunkBitsMiddle(sym: Sym, p: nat, width: nat, k: nat)
    requires 3 <= p < 6 && 1 <= width <= 5 && k < 8
    ensures LowBit(Chunk(sym, p, width), k) == (p <= k < p + width && SymBit(sym, k - p))
  {
    if p == 3 {} else if p == 4 {} else {}
  }

  lemma ChunkBitsHigh(sym: Sym, p: nat, width: nat, k: nat)
    requires 6 <= p < 8 && 1 <= width <= 5 && k < 8
    ensures LowBit(Chunk(sym, p, width), k) == (p <= k < p + width && SymBit(sym, k - p))
  {
    if p == 6 {} else {}
  }

  /** Lines 161-162: the bits of sym that did not fit, at the front of the next byte. */
  function SpillBits(sym: Sym, width: nat, b: nat): bv8
    requires b < width <= 5
  {
    (Shl(Shr(sym as bv16, 5 - width), 8 - (width - b)) & 0xff) as bv8
  }

  lemma SpillBitsCorrect(sym: Sym, width: nat, b: nat, k: nat)
    requires 1 <= b < width <= 5 && k < 8
    ensures ByteBit(SpillBits(sym, width, b), k) == (b + k < width && SymBit(sym, b + k))
  {
    if b == 1 {} else if b == 2 {} else if b == 3 {} else {}
  }

  /** Bytes a bit string occupies. */
  function BytesFor(bits: nat): nat {
    (bits + 7) / 8
  }

  /** The bytes start with these bits; the rest of the last byte is zero. */
  predicate Holds(bytes: seq<bv8>, bits: seq<bool>) {
    && BytesFor(|bits|) <= |bytes|
    && forall i: nat, k: nat | i < BytesFor(|bits|) && k < 8 ::
         ByteBit(bytes[i], k) == (8 * i + k < |bits| && bits[8 * i + k])
  }

  /** Lines 146-164: append the leading `width` bits of a symbol. */
  method StoreSymbol(dest: array<bv8>, outBits: nat, sym: Sym, width: nat, ghost acc: seq<bool>)
    returns (newBits: nat)
    requires 1 <= width <= 5 && BytesFor(outBits + width) <= dest.Length
    requires |acc| == outBits && Holds(dest[..], acc)
    modifies dest
    ensures newBits == outBits + width
    ensures Holds(dest[..], acc + SymBits(sym)[..width])
    ensures forall j | BytesFor(newBits) <= j < dest.Length :: dest[j] == old(dest[j])
  {
    hide PlaceBits, SpillBits, ByteBit, SymBit, Holds;
    var p := outBits % 8;
    var first := outBits / 8;
    if p == 0 {
      dest[first] := 0;
    }
    ghost var clear := dest[first];
    assert ClearFrom(clear, p) by {
      if p == 0 {
        ZeroIsClear();
      } else {
        LastByteClear(dest[..], acc);
      }
    }
    dest[first] := PlaceBits(dest[first], sym, p, width);
    var b := Min(8 - p, width);
    newBits := outBits + b;
    ghost var all := acc + SymBits(sym)[..width];
    if width > b {
      dest[newBits / 8] := SpillBits(sym, width, b);
      newBits := newBits + (width - b);
    }
    StoredBits(old(dest[..]), dest[..], clear, acc, sym, width);
  }

  /** The bytes after the symbol was placed behind the bits acc. */
  lemma StoredBits(before: seq<bv8>, after: seq<bv8>, clear: bv8, acc: seq<bool>, sym: Sym, width: nat)
    requires 1 <= width <= 5 && BytesFor(|acc| + width) <= |after| == |before| && Holds(before, acc)
    requires var first, p, b := |acc| / 8, |acc| % 8, Min(8 - |acc| % 8, width);
      && ClearFrom(clear, p) && (p > 0 ==> clear == before[first])
      && after[first] == PlaceBits(clear, sym, p, width)
      && (width > b ==> after[first + 1] == SpillBits(sym, width, b))
      && forall i | 0 <= i < first :: after[i] == before[i]
    ensures Holds(after, acc + SymBits(sym)[..width])
  {
    hide PlaceBits, SpillBits, ByteBit, SymBit, ClearFrom;
    var all, first, p := acc + SymBits(sym)[..width], |acc| / 8, |acc| % 8;
    forall i: nat, k: nat | i < BytesFor(|all|) && k < 8
      ensures ByteBit(after[i], k) == (8 * i + k < |all| && all[8 * i + k])
    {
      if i == first {
        PlaceBitsCorrect(clear, sym, p, width, k);
        assert k < p ==> ByteBit(clear, k) == acc[8 * i + k];
      } else if i > first {
        SpillBitsCorrect(sym, width, Min(8 - p, width), k);
      } else {
        assert after[i] == before[i];
        assert all[8 * i + k] == acc[8 * i + k];
      }
    }
  }

  lemma ZeroIsClear()
    ensures ClearFrom(0, 0)
  {}

  lemma LastByteClear(bytes: seq<bv8>, bits: seq<bool>)
    requires Holds(bytes, bits) && |bits| % 8 != 0
    ensures ClearFrom(bytes[|bits| / 8], |bits| % 8)
  {
    hide ByteBit;
    var i := |bits| / 8;
    assert forall k: nat | k < 8 :: ByteBit(bytes[i], k) == (8 * i + k < |bits| && bits[8 * i + k]);
  }

  lemma PrependTwice(a: seq<bool>, b: seq<bool>, d: Decoded)
    ensures Prepend(a, Prepend(b, d)) == Prepend(a + b, d)
  {
    if d.Bits? {
      assert a + (b + d.bits) == (a + b) + d.bits;
    }
  }

  method Decode(dest: array<bv8>, destlenBits: nat, src: string, crcAfterEvery: nat) returns (r: int)
    requires BytesFor(destlenBits) <= dest.Length
    modifies dest
    ensures r == -1 <==> DecodeText(src, destlenBits, crcAfterEvery) == Bad
    ensures r != -1 ==>
              var bits := DecodeText(src, destlenBits, crcAfterEvery).bits;
              && r == |bits| <= destlenBits && Holds(dest[..], bits)
              && forall j | BytesFor(r) <= j < dest.Length :: dest[j] == old(dest[j])
    ensures forall j | BytesFor(destlenBits) <= j < dest.Length :: dest[j] == old(dest[j])
  {
    hide Crc5, Crc5Step, SymValue, SymBits, SymOf, Separator, ByteBit, Holds;
    var crc: Sym, crcCount, outBits, i := 0, 0, 0, 0;
    ghost var acc: seq<bool> := [];
    assert src[0..] == src;
    EmptyHolds(dest[..]);
    while i < |src| && src[i] != '\0'
      invariant i <= |src| && outBits == |acc| <= destlenBits
      invariant crcAfterEvery > 0 ==> crcCount <= crcAfterEvery
      invariant DecodeText(src, destlenBits, crcAfterEvery)
             == Prepend(acc, Read(src[i..], destlenBits - outBits, crcAfterEvery, crc, crcCount))
      invariant Holds(dest[..], acc)
      invariant forall j | BytesFor(outBits) <= j < dest.Length :: dest[j] == old(dest[j])
    {
      var c := src[i];
      assert src[i..][0] == c && src[i..][1..] == src[i + 1..];
      i := i + 1;
      if Separator(c) {
        continue;
      }
      var value := DecodeSym(c);
      if value < 0 {
        return -1;
      }
      SymValueIs(c);
      var sym: Sym := value as Sym;
      if crcAfterEvery != 0 {
        if crcCount == crcAfterEvery {
          if crc != sym {
            return -1;
          }
          crcCount, crc := 0, 0;
          continue;
        } else {
          crc := NextCrc(sym, crc);
          crcCount := crcCount + 1;
        }
      }
      if outBits >= destlenBits {
        break;
      }
      var sbits := Min(5, destlenBits - outBits);
      PrependTwice(acc, SymBits(sym)[..sbits],
                   Read(src[i..], destlenBits - outBits - sbits, crcAfterEvery, crc, crcCount));
      outBits := StoreSymbol(dest, outBits, sym, sbits, acc);
      acc := acc + SymBits(sym)[..sbits];
    }
    assert acc + [] == acc;
    if crcAfterEvery != 0 && crcCount != 0 {
      return -1;
    }
    return outBits;
  }

  lemma EmptyHolds(bytes: seq<bv8>)
    ensures Holds(bytes, [])
  {}
}

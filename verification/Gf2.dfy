/** Division of polynomials over GF(2), the definition every CRC is measured against.
    A polynomial is a sequence of coefficients, the highest power first. A generator of
    degree w is given by its w lower coefficients p; the leading one is implied. */
module Gf2 {

  type Poly = seq<bool>

  function Zeros(n: nat): (z: Poly)
    ensures |z| == n
  {
    seq(n, _ => false)
  }

  function Xor(a: Poly, b: Poly): (c: Poly)
    requires |a| == |b|
    ensures |c| == |a|
  {
    seq(|a|, i requires 0 <= i < |a| => a[i] != b[i])
  }

  /** x times r, reduced by the generator. */
  function Mul(r: Poly, p: Poly): (s: Poly)
    requires |r| == |p| > 0
    ensures |s| == |p|
  {
    var s := r[1..] + [false];
    if r[0] then Xor(s, p) else s
  }

  function AddLow(r: Poly, b: bool): (s: Poly)
    requires |r| > 0
    ensures |s| == |r|
  {
    r[|r| - 1 := r[|r| - 1] != b]
  }

  /** Long division: the remainder of r * x^|m| + m, by Horner's rule. */
  function Rem(r: Poly, m: Poly, p: Poly): (s: Poly)
    requires |r| == |p| > 0
    ensures |s| == |p|
    decreases |m|
  {
    if m == [] then r else Rem(AddLow(Mul(r, p), m[0]), m[1..], p)
  }

  /** One step of a feedback shift register: the message bit enters at the top. */
  function Feed(r: Poly, b: bool, p: Poly): (s: Poly)
    requires |r| == |p| > 0
    ensures |s| == |p|
  {
    Mul(r[0 := r[0] != b], p)
  }

  function FeedAll(r: Poly, m: Poly, p: Poly): (s: Poly)
    requires |r| == |p| > 0
    ensures |s| == |p|
    decreases |m|
  {
    if m == [] then r else FeedAll(Feed(r, m[0], p), m[1..], p)
  }

  // ----- Rem is the remainder: linear, zero on multiples, the identity below degree w -----

  lemma MulLinear(r: Poly, s: Poly, p: Poly)
    requires |r| == |s| == |p| > 0
    ensures Mul(Xor(r, s), p) == Xor(Mul(r, p), Mul(s, p))
  {}

  lemma {:induction false} RemLinear(r: Poly, s: Poly, a: Poly, b: Poly, p: Poly)
    requires |r| == |s| == |p| > 0 && |a| == |b|
    ensures Rem(Xor(r, s), Xor(a, b), p) == Xor(Rem(r, a, p), Rem(s, b, p))
    decreases |a|
  {
    if a == [] {
    } else {
      MulLinear(r, s, p);
      var r', s' := AddLow(Mul(r, p), a[0]), AddLow(Mul(s, p), b[0]);
      assert AddLow(Mul(Xor(r, s), p), a[0] != b[0]) == Xor(r', s');
      assert Xor(a, b)[1..] == Xor(a[1..], b[1..]);
      RemLinear(r', s', a[1..], b[1..], p);
    }
  }

  lemma {:induction false} RemSplit(r: Poly, a: Poly, b: Poly, p: Poly)
    requires |r| == |p| > 0
    ensures Rem(r, a + b, p) == Rem(Rem(r, a, p), b, p)
    decreases |a|
  {
    if a == [] {
      assert a + b == b;
    } else {
      assert (a + b)[1..] == a[1..] + b;
      RemSplit(AddLow(Mul(r, p), a[0]), a[1..], b, p);
    }
  }

  /** A step without a carry just shifts the bit in. */
  lemma ShiftIn(r: Poly, b: bool, p: Poly)
    requires |r| == |p| > 0 && !r[0]
    ensures AddLow(Mul(r, p), b) == r[1..] + [b]
  {}

  lemma {:induction false} RemShift(r: Poly, m: Poly, p: Poly)
    requires |r| == |p| > 0 && |m| <= |p|
    requires forall i | 0 <= i < |m| :: !r[i]
    ensures Rem(r, m, p) == r[|m|..] + m
    decreases |m|
  {
    hide Mul, AddLow;
    if m == [] {
      assert r[0..] == r;
    } else {
      var s := r[1..] + [m[0]];
      ShiftIn(r, m[0], p);
      assert forall i | 0 <= i < |m| - 1 :: s[i] == r[i + 1];
      RemShift(s, m[1..], p);
      assert s[|m| - 1..] == r[|m|..] + [m[0]];
      assert [m[0]] + m[1..] == m;
      assert r[|m|..] + [m[0]] + m[1..] == r[|m|..] + ([m[0]] + m[1..]);
    }
  }

  /** A polynomial of degree below w is its own remainder. */
  lemma RemIdentity(m: Poly, p: Poly)
    requires |m| == |p| > 0
    ensures Rem(Zeros(|p|), m, p) == m
  {
    RemShift(Zeros(|p|), m, p);
  }

  lemma {:induction false} RemZeros(n: nat, p: Poly)
    requires |p| > 0
    ensures Rem(Zeros(|p|), Zeros(n), p) == Zeros(|p|)
  {
    if n > 0 {
      assert AddLow(Mul(Zeros(|p|), p), false) == Zeros(|p|);
      assert Zeros(n)[1..] == Zeros(n - 1);
      RemZeros(n - 1, p);
    }
  }

  lemma RemOne(r: Poly, b: bool, p: Poly)
    requires |r| == |p| > 0
    ensures Rem(r, [b], p) == AddLow(Mul(r, p), b)
  {
    assert [b][1..] == [];
  }

  /** One more bit than fits: the leading coefficient is reduced away. */
  lemma RemCarry(m: Poly, b: bool, p: Poly)
    requires |m| == |p| > 0
    ensures Rem(Zeros(|p|), m + [b], p) == AddLow(Mul(m, p), b)
  {
    RemIdentity(m, p);
    RemSplit(Zeros(|p|), m, [b], p);
    RemOne(m, b, p);
  }

  /** The generator itself leaves no remainder. */
  lemma RemGenerator(p: Poly)
    requires |p| > 0
    ensures Rem(Zeros(|p|), [true] + p, p) == Zeros(|p|)
  {
    hide Rem;
    var w := |p|;
    var top := [true] + p[..w - 1];
    assert [true] + p == top + [p[w - 1]];
    RemCarry(top, p[w - 1], p);
    var s := p[..w - 1] + [false];
    assert top[1..] + [false] == s;
    var q := Xor(s, p);
    assert Mul(top, p) == q;
    assert forall i | 0 <= i < w - 1 :: !q[i];
    assert AddLow(q, p[w - 1]) == Zeros(w);
  }

  /** The generator times a power of x. */
  function Shifted(k: nat, p: Poly): (g: Poly)
    ensures |g| == |p| + 1 + k
  {
    [true] + p + Zeros(k)
  }

  lemma RemShifted(k: nat, p: Poly)
    requires |p| > 0
    ensures Rem(Zeros(|p|), Shifted(k, p), p) == Zeros(|p|)
  {
    hide Mul, AddLow;
    RemGenerator(p);
    RemSplit(Zeros(|p|), [true] + p, Zeros(k), p);
    RemZeros(k, p);
  }

  /** One more bit of the quotient: the generator, when the bit is set, on top of the rest. */
  function Topped(b: bool, product: Poly, p: Poly): (whole: Poly)
    requires |product| >= |p|
    ensures |whole| == |product| + 1
  {
    if b then Xor(Shifted(|product| - |p|, p), [false] + product) else [false] + product
  }

  /** The generator times q: the sum of its shifts by the powers that q contains. */
  function Product(q: Poly, p: Poly): (m: Poly)
    ensures |m| == |q| + |p|
  {
    if q == [] then Zeros(|p|) else Topped(q[0], Product(q[1..], p), p)
  }

  lemma RemLeadingZero(m: Poly, p: Poly)
    requires |p| > 0
    ensures Rem(Zeros(|p|), [false] + m, p) == Rem(Zeros(|p|), m, p)
  {
    assert AddLow(Mul(Zeros(|p|), p), false) == Zeros(|p|);
    assert ([false] + m)[1..] == m;
  }

  /** Every multiple of the generator leaves no remainder. */
  lemma {:induction false} RemMultiple(q: Poly, p: Poly)
    requires |p| > 0
    ensures Rem(Zeros(|p|), Product(q, p), p) == Zeros(|p|)
  {
    hide Rem, Shifted;
    if q == [] {
      RemZeros(|p|, p);
    } else {
      var rest := [false] + Product(q[1..], p);
      RemMultiple(q[1..], p);
      RemLeadingZero(Product(q[1..], p), p);
      if q[0] {
        RemShifted(|q| - 1, p);
        RemLinear(Zeros(|p|), Zeros(|p|), Shifted(|q| - 1, p), rest, p);
        assert Xor(Zeros(|p|), Zeros(|p|)) == Zeros(|p|);
      }
    }
  }

  /** Two messages leave the same remainder exactly if they differ by a remainder of zero. */
  lemma SameRemainder(a: Poly, b: Poly, p: Poly)
    requires |p| > 0 && |a| == |b|
    ensures Rem(Zeros(|p|), a, p) == Rem(Zeros(|p|), b, p) <==> Rem(Zeros(|p|), Xor(a, b), p) == Zeros(|p|)
  {
    hide Rem;
    RemLinear(Zeros(|p|), Zeros(|p|), a, b, p);
    assert Xor(Zeros(|p|), Zeros(|p|)) == Zeros(|p|);
    var r, s := Rem(Zeros(|p|), a, p), Rem(Zeros(|p|), b, p);
    if Xor(r, s) == Zeros(|p|) {
      forall i | 0 <= i < |p| ensures r[i] == s[i] {
        assert Xor(r, s)[i] == Zeros(|p|)[i];
      }
    }
  }

  // ----- Division with remainder -----

  /** The quotient of r * x^|m| + m, by the same rule. */
  function Quotient(r: Poly, m: Poly, p: Poly): (q: Poly)
    requires |r| == |p| > 0
    ensures |q| == |m|
    decreases |m|
  {
    if m == [] then [] else [r[0]] + Quotient(AddLow(Mul(r, p), m[0]), m[1..], p)
  }

  /** Quotient times generator plus remainder is the dividend. */
  lemma {:induction false} Division(r: Poly, m: Poly, p: Poly)
    requires |r| == |p| > 0
    ensures r + m == Xor(Product(Quotient(r, m, p), p), Zeros(|m|) + Rem(r, m, p))
    decreases |m|
  {
    hide Mul, AddLow, Product;
    if m == [] {
      ProductNone(p);
      assert Zeros(0) + r == r && r + [] == r;
    } else {
      var s := AddLow(Mul(r, p), m[0]);
      var q, t := Quotient(s, m[1..], p), Rem(s, m[1..], p);
      Division(s, m[1..], p);
      ProductFirst(r[0], q, p);
      DivisionStep(r, m, p, s, Product(q, p), Zeros(|m| - 1) + t);
      assert Zeros(|m|) + t == [false] + (Zeros(|m| - 1) + t);
    }
  }

  lemma ProductNone(p: Poly)
    ensures Product([], p) == Zeros(|p|)
  {}

  lemma ProductFirst(b: bool, q: Poly, p: Poly)
    ensures Product([b] + q, p) == Topped(b, Product(q, p), p)
  {
    assert ([b] + q)[1..] == q;
  }

  lemma DivisionStep(r: Poly, m: Poly, p: Poly, s: Poly, product: Poly, rest: Poly)
    requires |r| == |p| > 0 && m != [] && s == AddLow(Mul(r, p), m[0])
    requires |product| == |rest| == |p| + |m| - 1 && s + m[1..] == Xor(product, rest)
    ensures r + m == Xor(Topped(r[0], product, p), [false] + rest)
  {
    hide Mul, AddLow, Topped, Xor;
    forall i | 0 <= i < |p| + |m| ensures (r + m)[i] == Xor(Topped(r[0], product, p), [false] + rest)[i] {
      DivisionAt(r, m, p, s, product, rest, i);
    }
  }

  lemma DivisionAt(r: Poly, m: Poly, p: Poly, s: Poly, product: Poly, rest: Poly, i: nat)
    requires |r| == |p| > 0 && m != [] && s == AddLow(Mul(r, p), m[0]) && i < |p| + |m|
    requires |product| == |rest| == |p| + |m| - 1 && s + m[1..] == Xor(product, rest)
    ensures (r + m)[i] == Xor(Topped(r[0], product, p), [false] + rest)[i]
  {
    hide Mul, AddLow, Shifted, Xor, Topped;
    XorAt(Topped(r[0], product, p), [false] + rest, i);
    ToppedAt(r[0], product, p, i);
    DividendAt(r, m, p, s, i);
    if i > 0 {
      XorAt(product, rest, i - 1);
    }
  }

  lemma ToppedAt(b: bool, product: Poly, p: Poly, i: nat)
    requires |product| >= |p| && i <= |product|
    ensures Topped(b, product, p)[i]
         == ((b && (i == 0 || (i <= |p| && p[i - 1]))) != (i > 0 && product[i - 1]))
  {
    hide Shifted, Xor;
    if b {
      XorAt(Shifted(|product| - |p|, p), [false] + product, i);
      ShiftedAt(|product| - |p|, p, i);
    }
  }

  lemma DividendAt(r: Poly, m: Poly, p: Poly, s: Poly, i: nat)
    requires |r| == |p| > 0 && m != [] && s == AddLow(Mul(r, p), m[0]) && i < |p| + |m|
    ensures if i == 0 then (r + m)[i] == r[0]
      else (s + m[1..])[i - 1] == ((r + m)[i] != (r[0] && i <= |p| && p[i - 1]))
  {
    hide Mul, AddLow;
    if 0 < i <= |p| {
      StepAt(r, m[0], p, i - 1);
    }
  }

  lemma XorAt(a: Poly, b: Poly, i: nat)
    requires |a| == |b| && i < |a|
    ensures Xor(a, b)[i] == (a[i] != b[i])
  {}

  lemma ShiftedAt(k: nat, p: Poly, i: nat)
    requires i <= |p| + k
    ensures Shifted(k, p)[i] == (i == 0 || (i <= |p| && p[i - 1]))
  {}

  lemma StepAt(r: Poly, b: bool, p: Poly, j: nat)
    requires |r| == |p| > 0 && j < |p|
    ensures AddLow(Mul(r, p), b)[j] == ((if j + 1 < |p| then r[j + 1] else b) != (r[0] && p[j]))
  {}

  // ----- The shift register computes the remainder of the augmented message -----

  lemma FeedIsMulAdd(r: Poly, b: bool, p: Poly)
    requires |r| == |p| > 0
    ensures Feed(r, b, p) == if b then Xor(Mul(r, p), p) else Mul(r, p)
  {
    if b {
      assert r[0 := !r[0]][1..] == r[1..];
    } else {
      assert r[0 := r[0]] == r;
    }
  }

  /** b * x^w, reduced. */
  lemma RemBit(b: bool, p: Poly)
    requires |p| > 0
    ensures Rem(Zeros(|p|), [b] + Zeros(|p|), p) == if b then p else Zeros(|p|)
  {
    hide Rem;
    var w := |p|;
    var top := [b] + Zeros(w - 1);
    assert [b] + Zeros(w) == top + [false];
    RemCarry(top, false, p);
    var s := top[1..] + [false];
    assert s == Zeros(w);
    assert Mul(top, p) == if b then Xor(s, p) else s;
    assert Xor(s, p) == p;
    assert AddLow(p, false) == p && AddLow(Zeros(w), false) == Zeros(w);
  }

  lemma FirstBitApart(m: Poly, w: nat)
    requires m != []
    ensures m + Zeros(w) == Xor(([m[0]] + Zeros(w)) + Zeros(|m| - 1), [false] + (m[1..] + Zeros(w)))
  {
    var head, rest := ([m[0]] + Zeros(w)) + Zeros(|m| - 1), [false] + (m[1..] + Zeros(w));
    assert forall i | 0 < i < |head| :: !head[i];
    assert forall i | 0 < i < |head| :: rest[i] == (m + Zeros(w))[i];
  }

  lemma XorZeros(n: nat)
    ensures Xor(Zeros(n), Zeros(n)) == Zeros(n)
  {}

  lemma ZerosOne()
    ensures [false] == Zeros(1)
  {}

  /** The message part of the invariant: the first bit contributes on its own. */
  lemma RemAugmentedStep(m: Poly, p: Poly)
    requires m != [] && |p| > 0
    ensures Rem(Zeros(|p|), m + Zeros(|p|), p)
         == Xor(Rem(if m[0] then p else Zeros(|p|), Zeros(|m| - 1), p), Rem(Zeros(|p|), m[1..] + Zeros(|p|), p))
  {
    hide Rem, Mul, AddLow, Xor, Zeros;
    var w, tail := |p|, m[1..];
    var head := ([m[0]] + Zeros(w)) + Zeros(|tail|);
    var rest := [false] + (tail + Zeros(w));
    FirstBitApart(m, w);
    XorZeros(w);
    RemLinear(Zeros(w), Zeros(w), head, rest, p);
    RemBit(m[0], p);
    RemSplit(Zeros(w), [m[0]] + Zeros(w), Zeros(|tail|), p);
    RemSplit(Zeros(w), [false], tail + Zeros(w), p);
    ZerosOne();
    RemZeros(1, p);
  }

  /** The register part: feeding one bit adds the reduced bit. */
  lemma RemRegisterStep(r: Poly, b: bool, n: nat, p: Poly)
    requires |r| == |p| > 0
    ensures Rem(Feed(r, b, p), Zeros(n), p)
         == Xor(Rem(r, Zeros(n + 1), p), Rem(if b then p else Zeros(|p|), Zeros(n), p))
  {
    hide Rem;
    var first := if b then p else Zeros(|p|);
    FeedIsMulAdd(r, b, p);
    assert Feed(r, b, p) == Xor(Mul(r, p), first);
    assert Xor(Zeros(n), Zeros(n)) == Zeros(n);
    RemLinear(Mul(r, p), first, Zeros(n), Zeros(n), p);
    assert Zeros(n + 1) == [false] + Zeros(n);
    RemSplit(r, [false], Zeros(n), p);
    RemOne(r, false, p);
    assert AddLow(Mul(r, p), false) == Mul(r, p);
  }

  /** From register r, the message m leaves r * x^|m| + m * x^w reduced. */
  lemma {:induction false} FeedAllIsRem(r: Poly, m: Poly, p: Poly)
    requires |r| == |p| > 0
    ensures FeedAll(r, m, p) == Xor(Rem(r, Zeros(|m|), p), Rem(Zeros(|p|), m + Zeros(|p|), p))
    decreases |m|
  {
    var w := |p|;
    if m == [] {
      assert m + Zeros(w) == Zeros(w);
      RemZeros(w, p);
      assert Xor(r, Zeros(w)) == r;
    } else {
      var first := if m[0] then p else Zeros(w);
      FeedAllIsRem(Feed(r, m[0], p), m[1..], p);
      RemRegisterStep(r, m[0], |m| - 1, p);
      RemAugmentedStep(m, p);
      XorRegroup(Rem(r, Zeros(|m|), p), Rem(first, Zeros(|m| - 1), p), Rem(Zeros(w), m[1..] + Zeros(w), p));
    }
  }

  lemma XorRegroup(a: Poly, b: Poly, c: Poly)
    requires |a| == |b| == |c|
    ensures Xor(Xor(a, b), c) == Xor(a, Xor(b, c))
  {}

  /** The register started with r computes the remainder of m * x^w with r added to its
      first w coefficients. */
  lemma RegisterIsRemainder(r: Poly, m: Poly, p: Poly)
    requires |r| == |p| > 0
    ensures FeedAll(r, m, p) == Rem(Zeros(|p|), Xor(r + Zeros(|m|), m + Zeros(|p|)), p)
  {
    var w := |p|;
    FeedAllIsRem(r, m, p);
    RemIdentity(r, p);
    RemSplit(Zeros(w), r, Zeros(|m|), p);
    RemLinear(Zeros(w), Zeros(w), r + Zeros(|m|), m + Zeros(w), p);
    assert Xor(Zeros(w), Zeros(w)) == Zeros(w);
  }

  lemma {:induction false} FeedAllSplit(r: Poly, a: Poly, b: Poly, p: Poly)
    requires |r| == |p| > 0
    ensures FeedAll(r, a + b, p) == FeedAll(FeedAll(r, a, p), b, p)
    decreases |a|
  {
    if a == [] {
      assert a + b == b;
    } else {
      assert (a + b)[1..] == a[1..] + b;
      FeedAllSplit(Feed(r, a[0], p), a[1..], b, p);
    }
  }

  // ----- Error detection -----

  lemma XorZero(a: Poly)
    ensures Xor(Zeros(|a|), a) == a
  {}

  lemma FeedZero(r: Poly, n: nat, p: Poly)
    requires |r| == |p| > 0 && n > 0
    ensures FeedAll(r, Zeros(n), p) == FeedAll(Mul(r, p), Zeros(n - 1), p)
  {
    assert r[0 := r[0] != false] == r;
    assert Zeros(n)[1..] == Zeros(n - 1);
  }

  /** With a nonzero constant term the register step is a bijection: this undoes it. */
  function Unmul(a: Poly, p: Poly): (r: Poly)
    requires |a| == |p| > 0
    ensures |r| == |p|
  {
    var top := a[|p| - 1];
    var s := if top then Xor(a, p) else a;
    [top] + s[..|p| - 1]
  }

  lemma UnmulMul(r: Poly, p: Poly)
    requires |r| == |p| > 0 && p[|p| - 1]
    ensures Unmul(Mul(r, p), p) == r
  {
    var s := r[1..] + [false];
    assert r == [r[0]] + s[..|p| - 1];
    assert Xor(Xor(s, p), p) == s;
  }

  lemma MulInjective(r: Poly, s: Poly, p: Poly)
    requires |r| == |s| == |p| > 0 && p[|p| - 1] && r != s
    ensures Mul(r, p) != Mul(s, p)
  {
    UnmulMul(r, p);
    UnmulMul(s, p);
  }

  /** Different registers stay different over the same message. */
  lemma {:induction false} FeedAllInjective(r: Poly, s: Poly, m: Poly, p: Poly)
    requires |r| == |s| == |p| > 0 && p[|p| - 1] && r != s
    ensures FeedAll(r, m, p) != FeedAll(s, m, p)
    decreases |m|
  {
    if m != [] {
      var i :| 0 <= i < |r| && r[i] != s[i];
      assert r[0 := r[0] != m[0]][i] != s[0 := s[0] != m[0]][i];
      MulInjective(r[0 := r[0] != m[0]], s[0 := s[0] != m[0]], p);
      FeedAllInjective(Feed(r, m[0], p), Feed(s, m[0], p), m[1..], p);
    }
  }

  /** Up to w message bits act as if they were added to the register beforehand. */
  lemma {:induction false} FeedBlock(r: Poly, m: Poly, p: Poly)
    requires |r| == |p| > 0 && |m| <= |p|
    ensures FeedAll(r, m, p) == FeedAll(Xor(r, m + Zeros(|p| - |m|)), Zeros(|m|), p)
    decreases |m|
  {
    var w := |p|;
    if m == [] {
      assert Xor(r, m + Zeros(w)) == r;
    } else {
      var all := Xor(r, m + Zeros(w - |m|));
      var head := r[0 := r[0] != m[0]];
      var later := [false] + m[1..] + Zeros(w - |m|);
      assert all == Xor(head, later);
      assert all[0 := all[0] != false] == all;
      MulLinear(head, later, p);
      assert Mul(later, p) == m[1..] + Zeros(w - |m| + 1);
      assert Zeros(|m|)[1..] == Zeros(|m| - 1);
      FeedBlock(Feed(r, m[0], p), m[1..], p);
    }
  }

  lemma PaddedDiffer(s: Poly, a: Poly, b: Poly, n: nat)
    requires |a| == |b| && a != b && |s| == |a| + n
    ensures Xor(s, a + Zeros(n)) != Xor(s, b + Zeros(n))
  {
    var i :| 0 <= i < |a| && a[i] != b[i];
    assert Xor(s, a + Zeros(n))[i] == (s[i] != a[i]);
    assert Xor(s, b + Zeros(n))[i] == (s[i] != b[i]);
  }

  /** Different blocks of up to w bits split a register. */
  lemma BlocksDiffer(s: Poly, a: Poly, b: Poly, p: Poly)
    requires |s| == |p| > 0 && p[|p| - 1]
    requires |a| == |b| <= |p| && a != b
    ensures FeedAll(s, a, p) != FeedAll(s, b, p)
  {
    hide FeedAll, Xor, Zeros;
    var n := |p| - |a|;
    FeedBlock(s, a, p);
    FeedBlock(s, b, p);
    PaddedDiffer(s, a, b, n);
    FeedAllInjective(Xor(s, a + Zeros(n)), Xor(s, b + Zeros(n)), Zeros(|a|), p);
  }

  /** Two messages that differ only inside w consecutive bits leave different registers. */
  lemma BurstDetected(r: Poly, pre: Poly, a: Poly, b: Poly, post: Poly, p: Poly)
    requires |r| == |p| > 0 && p[|p| - 1]
    requires |a| == |b| <= |p| && a != b
    ensures FeedAll(r, pre + a + post, p) != FeedAll(r, pre + b + post, p)
  {
    hide FeedAll, Xor, Mul;
    var s := FeedAll(r, pre, p);
    FeedAllSplit(r, pre + a, post, p);
    FeedAllSplit(r, pre + b, post, p);
    FeedAllSplit(r, pre, a, p);
    FeedAllSplit(r, pre, b, p);
    BlocksDiffer(s, a, b, p);
    FeedAllInjective(FeedAll(s, a, p), FeedAll(s, b, p), post, p);
  }

  // ----- What a register cannot see -----

  lemma {:induction false} RemZerosInjective(s: Poly, n: nat, p: Poly)
    requires |s| == |p| > 0 && p[|p| - 1]
    ensures Rem(s, Zeros(n), p) == Zeros(|p|) <==> s == Zeros(|p|)
    decreases n
  {
    hide Mul, Unmul;
    if n > 0 {
      assert Zeros(n)[1..] == Zeros(n - 1);
      assert AddLow(Mul(s, p), false) == Mul(s, p);
      RemZerosInjective(Mul(s, p), n - 1, p);
      RemZeros(1, p);
      assert Zeros(1)[1..] == [] && AddLow(Mul(Zeros(|p|), p), false) == Mul(Zeros(|p|), p);
      if s != Zeros(|p|) {
        MulInjective(s, Zeros(|p|), p);
      }
    }
  }

  /** A multiple of the generator, leading zeros aside. */
  ghost predicate IsMultiple(d: Poly, p: Poly) {
    exists q :: Product(q, p) == Zeros(|p|) + d
  }

  lemma MultipleIff(d: Poly, p: Poly)
    requires |p| > 0
    ensures IsMultiple(d, p) <==> Rem(Zeros(|p|), d, p) == Zeros(|p|)
  {
    hide Rem, Product, Quotient;
    RemSplit(Zeros(|p|), Zeros(|p|), d, p);
    RemZeros(|p|, p);
    if q :| Product(q, p) == Zeros(|p|) + d {
      RemMultiple(q, p);
    }
    if Rem(Zeros(|p|), d, p) == Zeros(|p|) {
      Division(Zeros(|p|), d, p);
      assert Zeros(|d|) + Zeros(|p|) == Zeros(|d| + |p|);
      XorZero(Product(Quotient(Zeros(|p|), d, p), p));
      XorZeroRight(Product(Quotient(Zeros(|p|), d, p), p));
    }
  }

  lemma XorZeroRight(a: Poly)
    ensures Xor(a, Zeros(|a|)) == a
  {}

  lemma XorPadded(r: Poly, a: Poly, b: Poly, n: nat)
    requires |a| == |b| && |r| == |a| + n
    ensures Xor(Xor(r, a + Zeros(n)), Xor(r, b + Zeros(n))) == Xor(a, b) + Zeros(n)
  {}

  /** From any start, two messages leave the same register exactly if they differ by a multiple of
      the generator. */
  lemma UndetectedIff(r: Poly, a: Poly, b: Poly, p: Poly)
    requires |r| == |p| > 0 && p[|p| - 1] && |a| == |b|
    ensures FeedAll(r, a, p) == FeedAll(r, b, p) <==> IsMultiple(Xor(a, b), p)
  {
    hide Rem, Xor, FeedAll, IsMultiple, Zeros;
    var w := |p|;
    RegisterIsRemainder(r, a, p);
    RegisterIsRemainder(r, b, p);
    SameRemainder(Xor(r + Zeros(|a|), a + Zeros(w)), Xor(r + Zeros(|a|), b + Zeros(w)), p);
    XorPadded(r + Zeros(|a|), a, b, w);
    RemSplit(Zeros(w), Xor(a, b), Zeros(w), p);
    RemZerosInjective(Rem(Zeros(w), Xor(a, b), p), w, p);
    MultipleIff(Xor(a, b), p);
  }

  /** Whether the number of coefficients is odd. */
  function Odd(m: Poly): bool {
    if m == [] then false else m[0] != Odd(m[1..])
  }

  lemma {:induction false} OddConcat(a: Poly, b: Poly)
    ensures Odd(a + b) == (Odd(a) != Odd(b))
  {
    if a == [] {
      assert a + b == b;
    } else {
      assert (a + b)[1..] == a[1..] + b;
      OddConcat(a[1..], b);
    }
  }

  lemma {:induction false} OddXor(a: Poly, b: Poly)
    requires |a| == |b|
    ensures Odd(Xor(a, b)) == (Odd(a) != Odd(b))
  {
    if a != [] {
      assert Xor(a, b)[1..] == Xor(a[1..], b[1..]);
      OddXor(a[1..], b[1..]);
    }
  }

  lemma {:induction false} OddZeros(n: nat)
    ensures !Odd(Zeros(n))
  {
    if n > 0 {
      assert Zeros(n)[1..] == Zeros(n - 1);
      OddZeros(n - 1);
    }
  }

  lemma ToppedIsEven(b: bool, product: Poly, p: Poly)
    requires |product| >= |p| && Odd(p) && !Odd(product)
    ensures !Odd(Topped(b, product, p))
  {
    var k := |product| - |p|;
    OddConcat([false], product);
    OddConcat([true] + p, Zeros(k));
    OddConcat([true], p);
    OddZeros(k);
    assert [true][1..] == [] && [false][1..] == [];
    OddXor(Shifted(k, p), [false] + product);
  }

  /** With an even number of terms, the leading one included, the generator has even multiples only. */
  lemma {:induction false} MultiplesAreEven(q: Poly, p: Poly)
    requires Odd(p)
    ensures !Odd(Product(q, p))
  {
    hide Odd, Xor, Zeros;
    if q == [] {
      OddZeros(|p|);
    } else {
      MultiplesAreEven(q[1..], p);
      ToppedIsEven(q[0], Product(q[1..], p), p);
    }
  }

  /** Then every odd number of wrong bits shows. */
  lemma OddErrorsDetected(r: Poly, a: Poly, b: Poly, p: Poly)
    requires |r| == |p| > 0 && p[|p| - 1] && Odd(p) && |a| == |b| && Odd(Xor(a, b))
    ensures FeedAll(r, a, p) != FeedAll(r, b, p)
  {
    hide Odd, Xor, FeedAll, Product;
    UndetectedIff(r, a, b, p);
    if q :| Product(q, p) == Zeros(|p|) + Xor(a, b) {
      MultiplesAreEven(q, p);
      OddZeros(|p|);
      OddConcat(Zeros(|p|), Xor(a, b));
    }
  }
}

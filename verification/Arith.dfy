/** Division facts the models share. */
module Arith {

  function Min(a: int, b: int): int {
    if a < b then a else b
  }

  function Max(a: int, b: int): int {
    if a < b then b else a
  }

  lemma {:induction false} MulPositive(d: nat, n: nat)
    requires d > 0
    ensures d * n >= n
  {
    if d > 1 {
      MulPositive(d - 1, n);
      assert d * n == (d - 1) * n + n;
    }
  }

  lemma MulStrict(a: int, b: int, n: nat)
    requires a > b
    ensures a * n >= b * n + n
  {
    MulPositive(a - b, n);
    assert (a - b) * n == a * n - b * n;
  }

  lemma DivModUnique(x: int, n: int, q: int, r: int)
    requires 0 <= r < n && x == q * n + r
    ensures x / n == q && x % n == r
  {
    var k := x / n;
    assert x == k * n + x % n;
    if k > q {
      MulStrict(k, q, n);
    } else if k < q {
      MulStrict(q, k, n);
    }
  }

  lemma AddModulus(a: int, n: int)
    requires n > 0
    ensures (a + n) % n == a % n && (a + n) / n == a / n + 1
  {
    assert (a / n + 1) * n == (a / n) * n + n;
    DivModUnique(a + n, n, a / n + 1, a % n);
  }

  lemma QuotientNonNegative(a: nat, n: nat)
    requires n > 0
    ensures a / n >= 0 && a == (a / n) * n + a % n
  {
    var q := a / n;
    if q < 0 {
      MulStrict(0, q, n);
    }
  }

  /** Division as in C: toward zero. */
  function TruncDiv(a: int, d: int): int
    requires d > 0
  {
    if a >= 0 then a / d else -((-a) / d)
  }

  lemma TruncDivBounds(a: int, d: int)
    requires d > 0
    ensures var q := TruncDiv(a, d);
      if a >= 0 then 0 <= q && q * d <= a < q * d + d else q <= 0 && q * d - d < a <= q * d
  {
    var b := if a >= 0 then a else -a;
    QuotientNonNegative(b, d);
    var k := b / d;
    assert (-k) * d == -(k * d);
  }

  lemma TruncDivSign(a: int, d: int)
    requires d > 0
    ensures a > -d ==> TruncDiv(a, d) >= 0
  {
    TruncDivBounds(a, d);
    if -d < a < 0 && TruncDiv(a, d) < 0 {
      MulStrict(0, TruncDiv(a, d), d);
    }
  }
}

/** Windows over the last n samples, and how a ring buffer of n slots holds them. */
module SlidingWindow {

  function Sum(s: seq<int>): int {
    if s == [] then 0 else s[0] + Sum(s[1..])
  }

  function SumOfSquares(s: seq<int>): int {
    if s == [] then 0 else s[0] * s[0] + SumOfSquares(s[1..])
  }

  function Zeros(n: nat): (z: seq<int>)
    ensures |z| == n
  {
    seq(n, _ => 0)
  }

  /** The last n samples of a log, oldest first; zeros stand for samples not yet taken. */
  function Window(log: seq<int>, n: nat): (w: seq<int>)
    ensures |w| == n
  {
    (Zeros(n) + log)[|log|..]
  }

  /** The contents of a ring, starting at the slot that is overwritten next. */
  function Unrolled(ring: seq<int>, idx: nat): (w: seq<int>)
    requires idx <= |ring|
    ensures |w| == |ring|
  {
    ring[idx..] + ring[..idx]
  }

  function Next(idx: nat, n: nat): nat {
    if idx + 1 >= n then 0 else idx + 1
  }

  lemma WindowStep(log: seq<int>, n: nat, x: int)
    requires n > 0
    ensures Window(log + [x], n) == Window(log, n)[1..] + [x]
  {}

  lemma UnrolledStep(ring: seq<int>, idx: nat, x: int)
    requires idx < |ring|
    ensures Unrolled(ring[idx := x], Next(idx, |ring|)) == Unrolled(ring, idx)[1..] + [x]
    ensures Unrolled(ring, idx)[0] == ring[idx]
  {
    var n := |ring|;
    if idx + 1 >= n {
      assert ring[idx := x] == ring[..idx] + [x];
    } else {
      assert ring[idx := x][idx + 1..] == ring[idx + 1..];
      assert ring[idx := x][..idx + 1] == ring[..idx] + [x];
    }
  }

  lemma {:induction false} SumConcat(a: seq<int>, b: seq<int>)
    ensures Sum(a + b) == Sum(a) + Sum(b)
    ensures SumOfSquares(a + b) == SumOfSquares(a) + SumOfSquares(b)
  {
    if a == [] {
      assert a + b == b;
    } else {
      assert (a + b)[1..] == a[1..] + b;
      SumConcat(a[1..], b);
    }
  }

  lemma SlideSum(w: seq<int>, x: int)
    requires w != []
    ensures Sum(w[1..] + [x]) == Sum(w) - w[0] + x
    ensures SumOfSquares(w[1..] + [x]) == SumOfSquares(w) - w[0] * w[0] + x * x
  {
    SumConcat(w[1..], [x]);
    assert Sum([x]) == x + Sum([]) && SumOfSquares([x]) == x * x + SumOfSquares([]);
  }

  /** n^2 times the variance of a window of n samples. */
  function ScaledVariance(w: seq<int>): int {
    |w| * SumOfSquares(w) - Sum(w) * Sum(w)
  }

  /** The incremental update of the scaled variance. */
  lemma VarianceStep(w: seq<int>, x: int)
    requires w != []
    ensures var v := w[1..] + [x];
      ScaledVariance(v) == ScaledVariance(w) + (x - w[0]) * (|w| * (x + w[0]) - Sum(v) - Sum(w))
  {
    hide Sum, SumOfSquares, ScaledVariance;
    var v := w[1..] + [x];
    assert |v| == |w|;
    SlideSum(w, x);
    ScaledVarianceIs(w, |w|, SumOfSquares(w), Sum(w));
    ScaledVarianceIs(v, |w|, SumOfSquares(v), Sum(v));
    VarianceAlgebraStep(|w|, SumOfSquares(w), Sum(w), w[0], x, SumOfSquares(v), Sum(v),
                        ScaledVariance(w), ScaledVariance(v));
  }

  lemma ScaledVarianceIs(w: seq<int>, n: int, q: int, s: int)
    requires n == |w| && q == SumOfSquares(w) && s == Sum(w)
    ensures ScaledVariance(w) == n * q - s * s
  {
    hide Sum, SumOfSquares;
  }

  lemma VarianceAlgebraStep(n: int, q: int, s: int, a: int, x: int, q': int, s': int, d: int, d': int)
    requires q' == q - a * a + x * x && s' == s - a + x
    requires d == n * q - s * s && d' == n * q' - s' * s'
    ensures d' == d + (x - a) * (n * (x + a) - s' - s)
  {
    VarianceAlgebra(n, q, s, a, x);
  }

  lemma VarianceAlgebra(n: int, q: int, s: int, a: int, x: int)
    ensures n * (q - a * a + x * x) - (s - a + x) * (s - a + x)
         == n * q - s * s + (x - a) * (n * (x + a) - (s - a + x) - s)
  {
    assert n * (q - a * a + x * x) == n * q - n * (a * a) + n * (x * x);
    assert (s - a + x) * (s - a + x) == s * s + (x - a) * (x - a) + 2 * s * (x - a);
    assert (x - a) * (n * (x + a)) == n * (x * x) - n * (a * a);
    assert (x - a) * ((s - a + x) + s) == 2 * s * (x - a) + (x - a) * (x - a);
    assert (x - a) * (n * (x + a) - (s - a + x) - s) == (x - a) * (n * (x + a)) - (x - a) * ((s - a + x) + s);
  }

  /** Half of Lagrange's identity: the sum of (a - w[i])^2. */
  lemma {:induction false} SumOfDeviations(w: seq<int>, a: int)
    ensures SumOfSquares(w) + |w| * (a * a) - 2 * a * Sum(w) >= 0
  {
    if w != [] {
      SumOfDeviations(w[1..], a);
      var b, n := w[0], |w| - 1;
      assert (n + 1) * (a * a) == n * (a * a) + a * a;
      assert 2 * a * (b + Sum(w[1..])) == 2 * a * b + 2 * a * Sum(w[1..]);
      SquareExpands(a, b);
    }
  }

  lemma SquareExpands(a: int, b: int)
    ensures a * a - 2 * a * b + b * b >= 0
  {
    var d := a - b;
    assert d * d == a * a - 2 * a * b + b * b;
    if d >= 0 {
      assert d * d >= 0;
    } else {
      assert d * d == (-d) * (-d) >= 0;
    }
  }

  /** A scaled variance is never negative. */
  lemma {:induction false} VarianceNonNegative(w: seq<int>)
    ensures ScaledVariance(w) >= 0
  {
    if w != [] {
      var t, a := w[1..], w[0];
      VarianceNonNegative(t);
      SumOfDeviations(t, a);
      VariancePeel(|t|, SumOfSquares(t), Sum(t), a);
    }
  }

  lemma VariancePeel(n: int, q: int, s: int, a: int)
    ensures (n + 1) * (a * a + q) - (a + s) * (a + s) == (n * q - s * s) + (q + n * (a * a) - 2 * a * s)
  {
    assert (n + 1) * (a * a + q) == n * (a * a) + n * q + a * a + q;
    assert (a + s) * (a + s) == a * a + 2 * a * s + s * s;
  }

  /** With samples of at most b in magnitude the sum of squares stays below n * b^2. */
  lemma {:induction false} BoundedSquares(w: seq<int>, b: int)
    requires b >= 0 && forall i | 0 <= i < |w| :: -b <= w[i] <= b
    ensures SumOfSquares(w) <= |w| * (b * b)
    ensures -(|w| * b) <= Sum(w) <= |w| * b
  {
    if w != [] {
      BoundedSquares(w[1..], b);
      SquareBound(w[0], b);
      Distribute(|w| - 1, b * b);
      Distribute(|w| - 1, b);
    }
  }

  lemma Distribute(n: int, c: int)
    ensures (n + 1) * c == n * c + c
  {}

  lemma SquareBound(x: int, b: int)
    requires 0 <= b && -b <= x <= b
    ensures x * x <= b * b
  {
    var y := if x < 0 then -x else x;
    assert y * y == x * x;
    assert y * y <= b * y <= b * b;
  }

  /** The squared deviations from the mean, s / n, each times n^2. */
  function Deviations(w: seq<int>, n: int, s: int): int {
    if w == [] then 0 else (n * w[0] - s) * (n * w[0] - s) + Deviations(w[1..], n, s)
  }

  lemma {:induction false} DeviationsExpand(w: seq<int>, n: int, s: int)
    ensures Deviations(w, n, s) == n * n * SumOfSquares(w) - 2 * n * s * Sum(w) + |w| * (s * s)
  {
    if w != [] {
      DeviationsExpand(w[1..], n, s);
      DeviationPeel(w[0], n, s, SumOfSquares(w[1..]), Sum(w[1..]), |w| - 1);
    }
  }

  lemma DeviationPeel(x: int, n: int, s: int, q: int, t: int, k: int)
    ensures (n * x - s) * (n * x - s) + (n * n * q - 2 * n * s * t + k * (s * s))
         == n * n * (x * x + q) - 2 * n * s * (x + t) + (k + 1) * (s * s)
  {
    var y := n * x;
    assert (y - s) * (y - s) == y * y - 2 * y * s + s * s;
    assert y * y == n * n * (x * x);
    assert 2 * y * s == 2 * n * s * x;
    assert n * n * (x * x + q) == n * n * (x * x) + n * n * q;
    assert 2 * n * s * (x + t) == 2 * n * s * x + 2 * n * s * t;
    assert (k + 1) * (s * s) == k * (s * s) + s * s;
  }

  /** The scaled variance is the sum of the squared deviations from the mean, times n. */
  lemma VarianceIsDeviation(w: seq<int>)
    ensures Deviations(w, |w|, Sum(w)) == |w| * ScaledVariance(w)
  {
    hide Sum, SumOfSquares, Deviations;
    var n, s, q := |w|, Sum(w), SumOfSquares(w);
    DeviationsExpand(w, n, s);
    assert n * (n * q - s * s) == n * n * q - n * (s * s);
    assert 2 * n * s * s == 2 * (n * (s * s));
  }
}

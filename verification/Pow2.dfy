/** Powers of two, trailing zero bits and bit lengths. */
module Pow2 {

  function Pow(n: nat): (r: int)
    ensures r >= 1
  {
    if n == 0 then 1 else 2 * Pow(n - 1)
  }

  /** Zero bits on the right hand side; the library gives none for 0, whose byte string is empty. */
  function TrailingZeros(a: int): nat
    requires a >= 0
    decreases a
  {
    if a == 0 || a % 2 == 1 then 0 else 1 + TrailingZeros(a / 2)
  }

  /** The bit length minus one. */
  function Log2(a: int): (n: nat)
    requires a > 0
    ensures Pow(n) <= a < 2 * Pow(n)
  {
    if a == 1 then 0 else 1 + Log2(a / 2)
  }

  lemma {:induction false} PowMono(m: nat, n: nat)
    requires m <= n
    ensures Pow(m) <= Pow(n)
  {
    if m < n { PowMono(m, n - 1); }
  }

  lemma {:induction false} PowSplit(m: nat, n: nat)
    ensures Pow(m + n) == Pow(m) * Pow(n)
  {
    if n > 0 {
      PowSplit(m, n - 1);
      assert Pow(m) * (2 * Pow(n - 1)) == 2 * (Pow(m) * Pow(n - 1));
    }
  }

  lemma LogBound(a: int, n: nat)
    requires 0 < a <= Pow(n)
    ensures Log2(a) <= n
  {
    if Log2(a) > n { PowMono(n + 1, Log2(a)); }
  }

  /** No higher power divides. */
  lemma {:induction false} TrailingMost(a: int, n: nat)
    requires a > 0 && a % Pow(n) == 0
    ensures n <= TrailingZeros(a)
    decreases n
  {
    if n > 0 {
      var p := Pow(n - 1);
      var k := a / (2 * p);
      assert a == k * (2 * p) == 2 * (k * p);
      assert a / 2 == k * p;
      ModMultiple(k, p);
      TrailingMost(a / 2, n - 1);
    }
  }

  lemma {:induction false} TrailingDivides(a: int, n: nat)
    requires a > 0 && n <= TrailingZeros(a)
    ensures a % Pow(n) == 0
    decreases n
  {
    if n > 0 {
      TrailingDivides(a / 2, n - 1);
      var p := Pow(n - 1);
      var k := a / 2 / p;
      assert a / 2 == k * p;
      assert a == k * (2 * p);
      ModMultiple(k, 2 * p);
    }
  }

  lemma MulMono(a: int, b: int, s: int)
    requires a <= b && s > 0
    ensures a * s <= b * s
  {}

  lemma ModMultiple(k: int, p: int)
    requires p > 0
    ensures (k * p) % p == 0 && (k * p) / p == k
  {
    var q := (k * p) / p;
    assert k * p == q * p + (k * p) % p;
    if q < k { MulMono(q + 1, k, p); }
    if k < q { MulMono(k + 1, q, p); }
  }

  /** A multiple of a larger power is a multiple of a smaller one. */
  lemma PowDivides(a: int, m: nat, n: nat)
    requires m <= n && a % Pow(n) == 0
    ensures a % Pow(m) == 0
  {
    PowSplit(m, n - m);
    Multiple(a, Pow(m), Pow(n - m), Pow(n));
  }

  lemma Multiple(a: int, p: int, k: int, n: int)
    requires p > 0 && n > 0 && n == p * k && a % n == 0
    ensures a % p == 0
  {
    var q := a / n;
    assert a == q * n;
    assert q * (p * k) == (q * k) * p;
    ModMultiple(q * k, p);
  }

  lemma LogAtLeast(a: int, m: nat, n: nat)
    requires Pow(n) <= a < 2 * Pow(m)
    ensures m >= n
  {
    if m < n { PowMono(m + 1, n); }
  }

  /** The bounds of the logarithm determine it. */
  lemma OneLog(a: int, n: nat)
    requires a > 0 && Pow(n) <= a < 2 * Pow(n)
    ensures Log2(a) == n
  {
    LogAtLeast(a, Log2(a), n);
    LogAtLeast(a, n, Log2(a));
  }

  lemma LogBelowPow(a: int, k: nat)
    requires k > 0 && a == Pow(k) - 1
    ensures a > 0 && Log2(a) == k - 1
  {
    OneLog(a, k - 1);
  }
}

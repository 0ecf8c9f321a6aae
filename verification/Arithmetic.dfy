/** Minimum and maximum, and division and remainder facts that the solver does not find by itself. */
module Arithmetic {
  function Min(a: nat, b: nat): nat {
    if a < b then a else b
  }

  function Max(a: nat, b: nat): nat {
    if a < b then b else a
  }

  lemma ModMinus(n: nat, d: nat)
    requires 0 < d <= n
    ensures (n - d) % d == n % d
  {
    var q, r := (n - d) / d, (n - d) % d;
    assert n == (q + 1) * d + r;
    ModUnique(n, d, q + 1, r);
  }

  lemma ModUnique(n: int, d: nat, q: int, r: nat)
    requires 0 < d && r < d && n == q * d + r
    ensures n % d == r
  {
    var q', r' := n / d, n % d;
    assert n == q' * d + r';
    assert (q' - q) * d == r - r';
    MultipleBound(q' - q, d);
  }

  lemma MultipleBound(k: int, d: int)
    requires d > 0 && -d < k * d < d
    ensures k == 0
  {
    if k != 0 {
      NonZeroMultiple(k, d);
    }
  }

  lemma NonZeroMultiple(k: int, d: int)
    requires d > 0 && k != 0
    ensures k * d >= d || k * d <= -d
  {
    if k > 0 {
      assert (k - 1) * d >= 0;
    } else {
      assert (-k - 1) * d >= 0;
    }
  }

  lemma DivModSplit(n: nat, d: nat)
    requires 0 < d
    ensures 0 <= n / d && n % d < d && n == n / d * d + n % d
  {
  }

  /** Quotient and remainder are what they multiply back to. */
  lemma DivModUnique(n: int, d: nat, q: int, r: nat)
    requires 0 < d && r < d && n == q * d + r
    ensures n / d == q && n % d == r
  {
    ModUnique(n, d, q, r);
    var q' := n / d;
    assert n == q' * d + r;
    assert (q' - q) * d == 0;
    MultipleBound(q' - q, d);
  }

  lemma DivDiv(n: nat, a: nat, b: nat)
    requires 0 < a && 0 < b
    ensures 0 < a * b && n / a / b == n / (a * b)
  {
    var q, r := n / a, n % a;
    var p, s := q / b, q % b;
    assert n == q * a + r && q == p * b + s;
    RemainderBound(a, b, r, s);
    assert n == p * (a * b) + (s * a + r);
    DivModUnique(n, a * b, p, s * a + r);
  }

  lemma RemainderBound(a: nat, b: nat, r: nat, s: nat)
    requires r < a && s < b
    ensures 0 < a * b && s * a + r < a * b
  {
    assert s * a <= (b - 1) * a;
  }

  /** Counting one further: the remainder goes up, or wraps and the quotient goes up. */
  lemma DivModNext(k: nat, n: nat)
    requires 0 < n
    ensures k % n + 1 < n ==> (k + 1) / n == k / n && (k + 1) % n == k % n + 1
    ensures k % n + 1 == n ==> (k + 1) / n == k / n + 1 && (k + 1) % n == 0
  {
    var q, r := k / n, k % n;
    assert k == q * n + r;
    if r + 1 < n {
      DivModUnique(k + 1, n, q, r + 1);
    } else {
      assert (q + 1) * n == q * n + n;
      DivModUnique(k + 1, n, q + 1, 0);
    }
  }
}

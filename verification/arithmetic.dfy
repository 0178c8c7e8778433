/** Bounds, and facts about division, remainders and powers that the solver needs spelled out. */
module Arithmetic {
  const U64_MAX: nat := 0xFFFF_FFFF_FFFF_FFFF

  function Min(a: nat, b: nat): nat { if a < b then a else b }

  function Max(a: nat, b: nat): nat { if a < b then b else a }

  lemma MulMono(a: int, b: int, c: nat)
    requires a <= b
    ensures a * c <= b * c
  {
    assert (b - a) * c >= 0;
    assert (b - a) * c == b * c - a * c;
  }

  lemma Distribute(a: int, b: int, c: int)
    ensures (a + b) * c == a * c + b * c
  {
  }

  /** Quotient and remainder are determined by the division equation. */
  lemma DivModUnique(x: int, d: nat, q: int, r: int)
    requires d > 0 && x == q * d + r && 0 <= r < d
    ensures x / d == q && x % d == r
  {
    var q', r' := x / d, x % d;
    assert x == q' * d + r';
    if q' < q {
      MulMono(q' + 1, q, d);
      Distribute(q', 1, d);
    } else if q < q' {
      MulMono(q + 1, q', d);
      Distribute(q, 1, d);
    }
  }

  lemma DivMod(n: nat, d: nat)
    requires d > 0
    ensures n == (n / d) * d + n % d
  {
  }

  /** Dividing twice is dividing by the product. */
  lemma DivDiv(n: nat, a: nat, b: nat)
    requires a > 0 && b > 0
    ensures a * b > 0 && n / (a * b) == (n / a) / b
  {
    var q, r, t, u := n / a, n % a, (n / a) / b, (n / a) % b;
    DivMod(n, a);
    DivMod(q, b);
    assert n == (t * b + u) * a + r;
    Distribute(t * b, u, a);
    assert (t * b) * a == t * (a * b);
    MulMono(u + 1, b, a);
    Distribute(u, 1, a);
    DivModUnique(n, a * b, t, u * a + r);
  }

  lemma DivLess(n: nat, d: nat, q: nat)
    requires d > 0 && n < d * q
    ensures n / d < q
  {
    DivMod(n, d);
    if n / d >= q {
      MulMono(q, n / d, d);
    }
  }

  function Power(b: nat, n: nat): nat {
    if n == 0 then 1 else b * Power(b, n - 1)
  }

  lemma {:induction false} PowerPositive(b: nat, n: nat)
    requires b > 0
    ensures Power(b, n) > 0
  {
    if n == 0 {
    } else {
      PowerPositive(b, n - 1);
    }
  }

  lemma {:induction false} PowerMono(m: nat, n: nat)
    requires m <= n
    ensures Power(2, m) <= Power(2, n)
  {
    if m == n {
    } else {
      PowerMono(m, n - 1);
    }
  }

  lemma {:induction false} PowerSplit(m: nat, n: nat)
    ensures Power(2, m + n) == Power(2, m) * Power(2, n)
  {
    if m == 0 {
    } else {
      PowerSplit(m - 1, n);
      assert Power(2, m) == 2 * Power(2, m - 1);
      assert Power(2, m + n) == 2 * Power(2, m + n - 1);
      hide Power;
      Associate(2, Power(2, m - 1), Power(2, n));
    }
  }

  lemma Associate(a: nat, b: nat, c: nat)
    ensures a * (b * c) == (a * b) * c
  {
  }
}

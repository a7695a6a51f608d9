/** Powers of two, quotients and remainders. */
module Arithmetic {

  function Pow2(k: nat): (p: nat)
    ensures p >= 1
  {
    if k == 0 then 1 else 2 * Pow2(k - 1)
  }

  /** Quotient and remainder are unique. */
  lemma Remainder(x: int, m: nat, q: int, r: nat)
    requires r < m && x == m * q + r
    ensures x % m == r
  {
    var q', r' := x / m, x % m;
    assert x == m * q' + r';
    assert m * (q - q') == r' - r;
    if q > q' {
      Scaled(m, q - q');
    } else if q < q' {
      Scaled(m, q' - q);
    }
  }

  lemma Scaled(m: nat, n: nat)
    requires n >= 1
    ensures m * n >= m
  {
    assert m * n == m * (n - 1) + m;
  }

  lemma AddMultiple(a: int, q: int, m: nat)
    requires m > 0
    ensures (a + m * q) % m == a % m
  {
    assert a == m * (a / m) + a % m;
    assert m * (a / m + q) == m * (a / m) + m * q;
    Remainder(a + m * q, m, a / m + q, a % m);
  }

  lemma Multiple(q: nat, m: nat)
    requires m > 0
    ensures q * m % m == 0 && m * q % m == 0
  {
    assert q * m == m * q;
    Remainder(m * q, m, q, 0);
  }

  lemma Pow2Next(k: nat)
    ensures Pow2(0) == 1 && Pow2(k + 1) == 2 * Pow2(k)
  {
  }

  lemma {:induction false} Pow2Add(a: nat, b: nat)
    ensures Pow2(a + b) == Pow2(a) * Pow2(b)
  {
    hide Pow2;
    Pow2Next(0);
    if a > 0 {
      Pow2Next(a - 1);
      Pow2Next(a - 1 + b);
      Pow2Add(a - 1, b);
      TwiceProduct(Pow2(a - 1), Pow2(b));
    }
  }

  lemma TwiceProduct(x: nat, y: nat)
    ensures 2 * (x * y) == (2 * x) * y
  {
  }

  lemma {:induction false} Pow2Monotone(m: nat, n: nat)
    requires m <= n
    ensures Pow2(m) <= Pow2(n)
    decreases n
  {
    if m < n {
      Pow2Monotone(m, n - 1);
    }
  }
}

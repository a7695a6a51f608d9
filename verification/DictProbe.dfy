/** The probe sequence of the dictionary: a perturbed start, then i -> 5i + 1 modulo a power of two. */
module DictProbe {
  import opened Arithmetic

  /** Results of the 32-bit hash function. */
  type Hash = n: nat | n < 0x1_0000_0000

  const PERTURB_SHIFT_FACTOR: nat := 32

  // ---------- i -> 5i + 1 over the integers

  /** `n` steps of i -> 5i + 1. */
  function Iter(n: nat, z: nat): nat {
    if n == 0 then z else 5 * Iter(n - 1, z) + 1
  }

  lemma {:induction false} IterAdd(m: nat, n: nat, z: nat)
    ensures Iter(m + n, z) == Iter(n, Iter(m, z))
  {
    if n > 0 {
      IterAdd(m, n - 1, z);
    }
  }

  /** 2^k steps are the affine map z -> (1 + 4 * 2^k * c) z + 2^k (1 + 2 d). */
  ghost predicate Affine(k: nat, c: nat, d: nat) {
    forall z: nat :: Iter(Pow2(k), z) == z + 4 * Pow2(k) * (c * z) + Pow2(k) * (1 + 2 * d)
  }

  lemma {:induction false} PowerSteps(k: nat) returns (c: nat, d: nat)
    ensures Affine(k, c, d)
  {
    if k == 0 {
      c, d := 1, 0;
      forall z: nat ensures Iter(1, z) == z + 4 * (1 * z) + 1 {
        assert Iter(0, z) == z;
      }
    } else {
      var p := Pow2(k - 1);
      var c0, d0 := PowerSteps(k - 1);
      c, d := c0 + 2 * p * (c0 * c0), d0 + p * c0 + 2 * (d0 * (p * c0));
      forall z: nat ensures Iter(Pow2(k), z) == z + 4 * Pow2(k) * (c * z) + Pow2(k) * (1 + 2 * d) {
        var w := Iter(p, z);
        IterAdd(p, p, z);
        assert w == z + 4 * p * (c0 * z) + p * (1 + 2 * d0);
        assert Iter(p, w) == w + 4 * p * (c0 * w) + p * (1 + 2 * d0);
        TwiceAffine(p, c0, d0, z, w);
      }
    }
  }

  lemma TwiceAffine(p: nat, c: nat, d: nat, z: nat, w: nat)
    requires w == z + 4 * p * (c * z) + p * (1 + 2 * d)
    ensures w + 4 * p * (c * w) + p * (1 + 2 * d)
         == z + 4 * (2 * p) * ((c + 2 * p * (c * c)) * z) + 2 * p * (1 + 2 * (d + p * c + 2 * (d * (p * c))))
  {
    var u := p * c;
    var b := p * (1 + 2 * d);
    ScaledSum(p, c, z, w, u, b);
    SquaredCoefficient(p, c, z, u);
    SquaredOffset(p, d, u, b);
  }

  lemma ScaledSum(p: nat, c: nat, z: nat, w: nat, u: nat, b: nat)
    requires u == p * c && w == z + 4 * p * (c * z) + b
    ensures 4 * p * (c * z) == 4 * (u * z)
    ensures 4 * p * (c * w) == 4 * (u * z) + 16 * (u * (u * z)) + 4 * (u * b)
  {
    assert p * (c * z) == u * z;
    assert p * (c * w) == u * w;
    assert u * w == u * z + u * (4 * (u * z)) + u * b;
    assert u * (4 * (u * z)) == 4 * (u * (u * z));
  }

  lemma SquaredCoefficient(p: nat, c: nat, z: nat, u: nat)
    requires u == p * c
    ensures 4 * (2 * p) * ((c + 2 * p * (c * c)) * z) == 8 * (u * z) + 16 * (u * (u * z))
  {
    assert p * (c * c) == u * c;
    assert (c + 2 * (u * c)) * z == c * z + 2 * (u * (c * z));
    assert p * (c * z) == u * z;
    assert p * (u * (c * z)) == u * (u * z);
    assert p * (c * z + 2 * (u * (c * z))) == p * (c * z) + 2 * (p * (u * (c * z)));
  }

  lemma SquaredOffset(p: nat, d: nat, u: nat, b: nat)
    requires b == p * (1 + 2 * d)
    ensures 2 * p * (1 + 2 * (d + u + 2 * (d * u))) == 2 * b + 4 * (u * b)
  {
    assert b == p + 2 * (p * d);
    assert u * b == u * p + 2 * (u * (p * d));
    assert p * (d + u + 2 * (d * u)) == p * d + p * u + 2 * (p * (d * u));
    assert p * (d * u) == u * (p * d);
  }

  /** Full period: from any start, some number of steps below 2^k lands on any residue. */
  lemma {:induction false} Reaches(k: nat, x: nat, y: nat) returns (n: nat, q: int)
    ensures n < Pow2(k) && Iter(n, x) == y + Pow2(k) * q
  {
    hide Pow2, Iter;
    Pow2Next(0);
    if k == 0 {
      n, q := 0, x - y;
      IterNothing(x);
    } else {
      var p := Pow2(k - 1);
      Pow2Next(k - 1);
      n, q := Reaches(k - 1, x, y);
      if q % 2 == 0 {
        Halve(p, q);
        q := q / 2;
      } else {
        var w := Iter(n, x);
        var c, d := PowerSteps(k - 1);
        IterAdd(n, p, x);
        assert Iter(p, w) == w + 4 * p * (c * w) + p * (1 + 2 * d);
        hide Affine;
        OddStep(p, q, c * w, d);
        n, q := n + p, 1 + q / 2 + 2 * (c * w) + d;
      }
    }
  }

  lemma IterNothing(x: nat)
    ensures Iter(0, x) == x
  {
  }

  lemma Halve(p: nat, q: int)
    requires q % 2 == 0
    ensures p * q == 2 * p * (q / 2)
  {
    assert q == 2 * (q / 2);
    assert p * (2 * (q / 2)) == 2 * p * (q / 2);
  }

  lemma OddStep(p: nat, q: int, v: nat, d: nat)
    requires q % 2 == 1
    ensures p * q + 4 * p * v + p * (1 + 2 * d) == 2 * p * (1 + q / 2 + 2 * v + d)
  {
    var r := q / 2;
    assert q == 2 * r + 1;
    assert p * (2 * r + 1) == 2 * (p * r) + p;
    assert p * (1 + 2 * d) == p + 2 * (p * d);
    assert 2 * p * (1 + r + 2 * v + d) == 2 * p + 2 * (p * r) + 4 * (p * v) + 2 * (p * d);
  }

  // ---------- the probes of dict_lookup

  /** `perturb` in the n-th turn of the probe loop: the hash shifted right by 5n. */
  function Perturb(hash: Hash, n: nat): nat {
    if n == 0 then hash else Perturb(hash, n - 1) / PERTURB_SHIFT_FACTOR
  }

  /** The slot looked at in the n-th probe of a table of `size` slots; 32-bit overflow of the sum
      does not show, because `size` divides 2^32. */
  function Probe(hash: Hash, size: nat, n: nat): (i: nat)
    requires size > 0
    ensures i < size
  {
    if n == 0 then hash % size else (5 * Probe(hash, size, n - 1) + Perturb(hash, n - 1) + 1) % size
  }

  lemma PerturbVanishes(hash: Hash, n: nat)
    requires n >= 7
    ensures Perturb(hash, n) == 0
  {
    if n > 7 {
      PerturbVanishes(hash, n - 1);
    } else {
      assert Perturb(hash, 1) < 0x800_0000;
      assert Perturb(hash, 2) < 0x40_0000;
      assert Perturb(hash, 3) < 0x2_0000;
      assert Perturb(hash, 4) < 0x1000;
      assert Perturb(hash, 5) < 0x80;
      assert Perturb(hash, 6) < 4;
    }
  }

  lemma ModStep(x: nat, m: nat)
    requires m > 0
    ensures (5 * (x % m) + 1) % m == (5 * x + 1) % m
  {
    var q, r := x / m, x % m;
    assert x == m * q + r;
    assert m * (5 * q) == 5 * (m * q);
    AddMultiple(5 * r + 1, 5 * q, m);
  }

  /** From the eighth probe on, the perturbation is gone. */
  lemma {:induction false} ProbeIter(hash: Hash, size: nat, s: nat, n: nat)
    requires size > 0 && s >= 7
    ensures Probe(hash, size, s + n) == Iter(n, Probe(hash, size, s)) % size
  {
    var x := Probe(hash, size, s);
    if n == 0 {
      assert Iter(0, x) == x;
      Remainder(x, size, 0, x);
    } else {
      ProbeIter(hash, size, s, n - 1);
      PerturbVanishes(hash, s + n - 1);
      ModStep(Iter(n - 1, x), size);
    }
  }

  /** From the eighth probe on, any `size` consecutive probes visit every slot of a power-of-two table. */
  lemma ProbeCovers(hash: Hash, k: nat, s: nat, y: nat) returns (n: nat)
    requires y < Pow2(k) && s >= 7
    ensures s <= n < s + Pow2(k) && Probe(hash, Pow2(k), n) == y
  {
    var size := Pow2(k);
    var x := Probe(hash, size, s);
    var j, q := Reaches(k, x, y);
    ProbeIter(hash, size, s, j);
    AddMultiple(y, q, size);
    Remainder(y, size, 0, y);
    n := s + j;
  }
}

/** The doubling loop of dict_resize, on 32-bit sizes. */
module DictGrow {
  import opened Arithmetic

  const WORD32: nat := 0x1_0000_0000
  const HALF: nat := 0x8000_0000
  const QUARTER: nat := 0x4000_0000

  const DICT_MIN_SZ: nat := 64
  const DICT_BIGSZ: nat := 64000

  /** Arithmetic on uint32_t. */
  function U32(x: int): (r: nat)
    ensures r < WORD32 && (0 <= x < WORD32 ==> r == x)
  {
    x % WORD32
  }

  /** How much room a rehash leaves. */
  function Factor(size: nat): nat { if size > DICT_BIGSZ then 2 else 4 }

  /** What the new size has to exceed. */
  function Wanted(size: nat, used: nat): (w: nat)
    ensures w < WORD32
  {
    U32(Factor(size) * used)
  }

  /** The test in dict_add and dict_add_p for calling dict_resize. */
  predicate Crowded(size: nat, fill: nat) { U32(3 * fill) >= U32(2 * size) }

  /** The size after `n` doublings. */
  function Doubled(size: nat, n: nat): nat {
    if n == 0 then size else U32(2 * Doubled(size, n - 1))
  }

  lemma Halves()
    ensures Pow2(30) == QUARTER && Pow2(31) == HALF && Pow2(32) == WORD32
  {
    assert Pow2(10) == 1024;
    Pow2Add(10, 10);
    Pow2Add(20, 10);
    assert Pow2(31) == 2 * Pow2(30) && Pow2(32) == 2 * Pow2(31);
  }

  /** Doubling runs through the powers of two and then stays at zero. */
  lemma {:induction false} DoubledPower(k: nat, n: nat)
    requires k <= 31
    ensures Doubled(Pow2(k), n) == if k + n <= 31 then Pow2(k + n) else 0
  {
    hide Pow2;
    if n > 0 {
      DoubledPower(k, n - 1);
      Halves();
      Pow2Next(k + n - 1);
      if k + n <= 31 {
        Pow2Monotone(k + n, 31);
      }
    }
  }

  /** The doubling loop of dict_resize ends if and only if the 32-bit product of factor and `used` is below 2^31. */
  lemma DoublingEnds(k: nat, w: nat)
    requires k <= 31
    ensures (exists n: nat :: Doubled(Pow2(k), n) > w) <==> w < HALF
  {
    hide Doubled, Pow2;
    Halves();
    DoubledPower(k, 31 - k);
    assert Doubled(Pow2(k), 31 - k) == HALF;
    forall n: nat
      ensures Doubled(Pow2(k), n) <= HALF
    {
      DoubledPower(k, n);
      if k + n <= 31 {
        Pow2Monotone(k + n, 31);
      }
    }
  }

  /** A power of two below 2^32 can be doubled while it is below 2^31. */
  lemma SizeBits(k: nat)
    requires Pow2(k) < WORD32
    ensures k <= 31 && (Pow2(k) < HALF ==> 2 * Pow2(k) == Pow2(k + 1) <= HALF)
    ensures Pow2(k) <= QUARTER || Pow2(k) == HALF
  {
    hide Pow2;
    Halves();
    Pow2Next(k);
    if k > 31 {
      Pow2Monotone(32, k);
    } else if k < 31 {
      Pow2Monotone(k, 30);
      Pow2Monotone(k + 1, 31);
    }
  }

  /** One more key leaves the fill below two thirds unless dict_resize is entered and grows the table. */
  lemma StaysRoomy(k: nat, size: nat, fill: nat)
    requires size == Pow2(k) < WORD32 && 3 * fill < 2 * size
    ensures fill + 1 < WORD32
    ensures !Crowded(size, fill + 1) || size > Wanted(size, fill + 1) ==> 3 * (fill + 1) < 2 * size
  {
    hide Pow2;
    SizeBits(k);
  }

  /** Wrapping at 2^32 does not change a remainder modulo a smaller power of two. */
  lemma WrapMod(x: nat, k: nat)
    requires k <= 32
    ensures U32(x) % Pow2(k) == x % Pow2(k)
  {
    hide Pow2;
    Halves();
    Pow2Add(k, 32 - k);
    var m, q := Pow2(k), x / WORD32;
    assert x == U32(x) + WORD32 * q;
    assert WORD32 * q == m * (Pow2(32 - k) * q);
    AddMultiple(U32(x), Pow2(32 - k) * q, m);
  }
}

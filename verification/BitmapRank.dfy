/** Rank and select on bitmaps, and the translations built on them: remap, onto and fold. */
module BitmapRank {
  import opened Common
  import opened Arithmetic
  import opened Bitmap

  /** The number of set bits below `n`. */
  function Rank(w: seq<Word>, n: nat): (r: nat)
    ensures r <= n
  {
    if n == 0 then 0 else Rank(w, n - 1) + if Bit(w, n - 1) then 1 else 0
  }

  lemma {:induction false} RankMonotone(w: seq<Word>, m: nat, n: nat)
    requires m <= n
    ensures Rank(w, m) <= Rank(w, n)
    ensures m < n && Bit(w, m) ==> Rank(w, m) < Rank(w, n)
    ensures (forall p | m <= p < n :: !Bit(w, p)) ==> Rank(w, m) == Rank(w, n)
    decreases n
  {
    if m < n {
      RankMonotone(w, m, n - 1);
    }
  }

  /** The words up to `k` and `j` bits of word `k` weigh what the bits below weigh. */
  lemma {:induction false} RankWord(w: seq<Word>, k: nat, j: nat)
    requires k < |w| && j <= 64
    ensures Rank(w, 64 * k + j) == Rank(w, 64 * k) + |w[k] * Mask(0, j)|
    decreases j
  {
    if j == 0 {
      assert w[k] * Mask(0, 0) == {};
    } else {
      RankWord(w, k, j - 1);
      WordBit(w, k, j - 1);
      MaskStep(w[k], j - 1);
    }
  }

  lemma MaskStep(x: Word, j: nat)
    requires j < 64
    ensures |x * Mask(0, j + 1)| == |x * Mask(0, j)| + if j in x then 1 else 0
  {
    var s, t := x * Mask(0, j), x * Mask(0, j + 1);
    assert t == if j in x then s + {j} else s;
  }

  /** __bitmap_weight: the weight of the whole words and of the masked last word is the number of set bits. */
  method Weight(a: array<Word>, bits: nat) returns (n: nat)
    requires bits <= 64 * a.Length
    ensures n == Rank(a[..], bits)
  {
    hide Rank, Mask;
    n := 0;
    var k, lim := 0, bits / 64;
    NoRank(a[..]);
    while k < lim
      invariant 0 <= k <= lim && n == Rank(a[..], 64 * k)
    {
      RankWord(a[..], k, 64);
      assert a[k] * Mask(0, 64) == a[k];
      n := n + |a[k]|;
      k := k + 1;
    }
    if bits % 64 != 0 {
      RankWord(a[..], k, bits % 64);
      n := n + |a[k] * LastWordMask(bits)|;
    }
  }

  lemma NoRank(w: seq<Word>)
    ensures Rank(w, 0) == 0
  {
  }

  // ---------- positions and ordinals

  /** bitmap_pos_to_ord: which set bit the bit at `pos` is; none when it is not set. */
  method PosToOrd(a: array<Word>, pos: nat, nbits: nat) returns (ord: Option<nat>)
    requires nbits <= 64 * a.Length
    ensures ord == Ord(a[..], pos, nbits)
  {
    if pos >= nbits || !Bit(a[..], pos) {
      return None;
    }
    var n := Weight(a, pos);
    ord := Some(n);
  }

  function Ord(w: seq<Word>, pos: nat, nbits: nat): Option<nat> {
    if pos >= nbits || !Bit(w, pos) then None else Some(Rank(w, pos))
  }

  /** `pos` is the position of set bit number `ord`. */
  ghost predicate IsPos(w: seq<Word>, ord: nat, nbits: nat, pos: nat) {
    if ord < Rank(w, nbits) then pos < nbits && Bit(w, pos) && Rank(w, pos) == ord else pos == nbits
  }

  /** bitmap_ord_to_pos: the position of set bit number `ord`, `nbits` when there are not so many. */
  method OrdToPos(a: array<Word>, ord: nat, nbits: nat) returns (pos: nat)
    requires nbits <= 64 * a.Length
    ensures IsPos(a[..], ord, nbits, pos)
  {
    hide Rank;
    var w := a[..];
    var left := ord;
    pos := NextBit(w, nbits, 0);
    RankMonotone(w, 0, pos);
    NoRank(w);
    while pos < nbits && left > 0
      invariant 0 <= left <= ord && pos <= nbits && Rank(w, pos) == ord - left
      invariant pos < nbits ==> Bit(w, pos)
      decreases nbits - pos
    {
      RankNext(w, pos);
      var next := NextBit(w, nbits, pos + 1);
      RankMonotone(w, pos + 1, next);
      pos := next;
      left := left - 1;
    }
    RankMonotone(w, pos, nbits);
  }

  lemma RankNext(w: seq<Word>, p: nat)
    ensures Rank(w, p + 1) == Rank(w, p) + if Bit(w, p) then 1 else 0
  {
  }

  /** The position of an ordinal is unique, and the two maps are inverse to each other. */
  lemma OrdInverse(w: seq<Word>, ord: nat, nbits: nat, pos: nat)
    ensures IsPos(w, ord, nbits, pos) && pos < nbits ==> Ord(w, pos, nbits) == Some(ord)
    ensures Ord(w, pos, nbits) == Some(ord) ==> IsPos(w, ord, nbits, pos)
  {
    hide Rank;
    if pos < nbits {
      RankMonotone(w, pos, nbits);
    }
  }

  lemma PosUnique(w: seq<Word>, ord: nat, nbits: nat, p: nat, q: nat)
    requires IsPos(w, ord, nbits, p) && IsPos(w, ord, nbits, q)
    ensures p == q
  {
    hide Rank;
    if p < q {
      RankMonotone(w, p, q);
    } else if q < p {
      RankMonotone(w, q, p);
    }
  }

  // ---------- remap

  /** Where the map from `old` to `new` takes bit `o`: the bit of the same ordinal, modulo the weight of `new`; a bit
      outside `old`, and every bit when `new` is empty, stays where it is. */
  ghost predicate Remapped(old_: seq<Word>, new_: seq<Word>, nbits: nat, o: nat, n: nat) {
    var w := Rank(new_, nbits);
    match Ord(old_, o, nbits)
    case None => n == o
    case Some(k) => if w == 0 then n == o else IsPos(new_, k % w, nbits, n)
  }

  /** bitmap_bitremap */
  method BitRemap(oldbit: nat, old_: array<Word>, new_: array<Word>, bits: nat) returns (r: nat)
    requires bits <= 64 * old_.Length && bits <= 64 * new_.Length
    ensures Remapped(old_[..], new_[..], bits, oldbit, r)
  {
    var w := Weight(new_, bits);
    var n := PosToOrd(old_, oldbit, bits);
    if n.None? || w == 0 {
      return oldbit;
    }
    r := OrdToPos(new_, n.value % w, bits);
  }

  /** `n` is the image of a bit of `src` below `bound`. */
  ghost predicate Image(src: seq<Word>, old_: seq<Word>, new_: seq<Word>, nbits: nat, bound: nat, n: nat) {
    exists o: nat :: o < bound && Bit(src, o) && Remapped(old_, new_, nbits, o, n)
  }

  /** bitmap_remap: the result is the image of `src` under bitmap_bitremap; a bitmap is not remapped onto itself. */
  method Remap(dst: array<Word>, src: array<Word>, old_: array<Word>, new_: array<Word>, nbits: nat)
    requires dst.Length == Longs(nbits) && nbits <= 64 * src.Length
    requires nbits <= 64 * old_.Length && nbits <= 64 * new_.Length && dst != old_ && dst != new_
    modifies dst
    ensures dst == src ==> dst[..] == old(dst[..])
    ensures dst != src ==>
      forall n: nat :: Bit(dst[..], n) <==> Image(src[..], old_[..], new_[..], nbits, nbits, n)
  {
    hide Remapped, Bitmap.Bit, Image;
    if dst == src {
      return;
    }
    Zero(dst, nbits);
    ghost var s, u, v := src[..], old_[..], new_[..];
    var oldbit := NextBit(src[..], nbits, 0);
    NoImage(s, u, v, nbits, oldbit);
    while oldbit < nbits
      invariant oldbit <= nbits && (oldbit < nbits ==> Bit(s, oldbit))
      invariant forall n: nat :: Bit(dst[..], n) <==> Image(s, u, v, nbits, oldbit, n)
      decreases nbits - oldbit
    {
      var n := BitRemap(oldbit, old_, new_, nbits);
      RemappedBelow(u, v, nbits, oldbit, n);
      SetBit(dst, n);
      var next := NextBit(src[..], nbits, oldbit + 1);
      MoreImage(s, u, v, nbits, oldbit, next, n);
      oldbit := next;
    }
  }

  lemma RemappedBelow(old_: seq<Word>, new_: seq<Word>, nbits: nat, o: nat, n: nat)
    requires Remapped(old_, new_, nbits, o, n) && o < nbits
    ensures n < nbits && n / 64 < Longs(nbits)
  {
    hide Rank;
  }

  lemma RemappedOnce(old_: seq<Word>, new_: seq<Word>, nbits: nat, o: nat, n: nat, m: nat)
    requires Remapped(old_, new_, nbits, o, n) && Remapped(old_, new_, nbits, o, m)
    ensures n == m
  {
    hide Rank, IsPos;
    var w := Rank(new_, nbits);
    match Ord(old_, o, nbits)
    case None =>
    case Some(k) =>
      if w > 0 {
        PosUnique(new_, k % w, nbits, n, m);
      }
  }

  lemma NoImage(src: seq<Word>, old_: seq<Word>, new_: seq<Word>, nbits: nat, bound: nat)
    requires forall p: nat | p < bound :: !Bit(src, p)
    ensures forall n: nat :: !Image(src, old_, new_, nbits, bound, n)
  {
  }

  /** The image of one more bit. */
  lemma MoreImage(src: seq<Word>, old_: seq<Word>, new_: seq<Word>, nbits: nat, o: nat, next: nat, m: nat)
    requires o < next && Bit(src, o) && (forall p: nat | o < p < next :: !Bit(src, p))
    requires Remapped(old_, new_, nbits, o, m)
    ensures forall n: nat :: Image(src, old_, new_, nbits, next, n) <==> Image(src, old_, new_, nbits, o, n) || n == m
  {
    hide Remapped, Bitmap.Bit;
    forall n: nat
      ensures Image(src, old_, new_, nbits, next, n) <==> Image(src, old_, new_, nbits, o, n) || n == m
    {
      if Image(src, old_, new_, nbits, next, n) && !Image(src, old_, new_, nbits, o, n) {
        RemappedOnce(old_, new_, nbits, o, n, m);
      }
    }
  }

  /** With equal weights the map is undone by the map the other way. */
  lemma RemapBack(old_: seq<Word>, new_: seq<Word>, nbits: nat, o: nat, n: nat)
    requires Rank(old_, nbits) == Rank(new_, nbits) && Bit(old_, o) && o < nbits && Remapped(old_, new_, nbits, o, n)
    ensures Remapped(new_, old_, nbits, n, o)
  {
    hide Rank;
    var w, k := Rank(new_, nbits), Rank(old_, o);
    RankMonotone(old_, o, nbits);
    Remainder(k, w, 0, k);
    OrdInverse(new_, k, nbits, n);
  }

  // ---------- onto and fold

  /** bitmap_fold: bit `n` is set exactly when some bit of `orig` is `n` modulo `sz`. */
  method Fold(dst: array<Word>, orig: array<Word>, sz: nat, nbits: nat)
    requires dst.Length == Longs(nbits) && nbits <= 64 * orig.Length && sz > 0
    modifies dst
    ensures dst == orig ==> dst[..] == old(dst[..])
    ensures dst != orig ==> forall n: nat :: Bit(dst[..], n) <==> Folded(orig[..], sz, nbits, n)
  {
    hide Bitmap.Bit, Folded;
    if dst == orig {
      return;
    }
    Zero(dst, nbits);
    ghost var s := orig[..];
    var m := NextBit(orig[..], nbits, 0);
    NoFold(s, sz, m);
    while m < nbits
      invariant m <= nbits && (m < nbits ==> Bit(s, m))
      invariant forall n: nat :: Bit(dst[..], n) <==> Folded(s, sz, m, n)
      decreases nbits - m
    {
      SmallRemainder(m, sz, nbits);
      SetBit(dst, m % sz);
      var next := NextBit(orig[..], nbits, m + 1);
      MoreFold(s, sz, m, next);
      m := next;
    }
  }

  ghost predicate Folded(orig: seq<Word>, sz: nat, bound: nat, n: nat)
    requires sz > 0
  {
    exists m: nat :: m < bound && Bit(orig, m) && m % sz == n
  }

  lemma SmallRemainder(m: nat, sz: nat, nbits: nat)
    requires sz > 0 && m < nbits
    ensures (m % sz) / 64 < Longs(nbits)
  {
    if m < sz {
      Remainder(m, sz, 0, m);
    }
  }

  lemma NoFold(orig: seq<Word>, sz: nat, bound: nat)
    requires sz > 0 && forall p: nat | p < bound :: !Bit(orig, p)
    ensures forall n: nat :: !Folded(orig, sz, bound, n)
  {
  }

  lemma MoreFold(orig: seq<Word>, sz: nat, m: nat, next: nat)
    requires sz > 0 && m < next && Bit(orig, m) && forall p: nat | m < p < next :: !Bit(orig, p)
    ensures forall n: nat :: Folded(orig, sz, next, n) <==> Folded(orig, sz, m, n) || n == m % sz
  {
    hide Bitmap.Bit;
  }

  /** bitmap_onto: bit `n` is set exactly when it is a bit of `relmap` whose ordinal is a bit of `orig`. */
  method Onto(dst: array<Word>, orig: array<Word>, relmap: array<Word>, bits: nat)
    requires dst.Length == Longs(bits) && bits <= 64 * orig.Length && bits <= 64 * relmap.Length && dst != relmap
    modifies dst
    ensures dst == orig ==> dst[..] == old(dst[..])
    ensures dst != orig ==> forall n: nat :: Bit(dst[..], n) <==> OnRelmap(orig[..], relmap[..], bits, n)
  {
    hide Bitmap.Bit, Rank;
    if dst == orig {
      return;
    }
    Zero(dst, bits);
    ghost var s, r := orig[..], relmap[..];
    var m, n := 0, NextBit(relmap[..], bits, 0);
    NoRank(r);
    RankMonotone(r, 0, n);
    while n < bits
      invariant n <= bits && (n < bits ==> Bit(r, n)) && m == Rank(r, n)
      invariant forall p: nat :: Bit(dst[..], p) <==> OnRelmap(s, r, n, p)
      decreases bits - n
    {
      if Bit(orig[..], m) {
        SetBit(dst, n);
      }
      RankNext(r, n);
      var next := NextBit(relmap[..], bits, n + 1);
      RankMonotone(r, n + 1, next);
      m := m + 1;
      n := next;
    }
  }

  ghost predicate OnRelmap(orig: seq<Word>, relmap: seq<Word>, bound: nat, n: nat) {
    n < bound && Bit(relmap, n) && Bit(orig, Rank(relmap, n))
  }

  /** Folding `orig` by the weight of `relmap` and then taking it onto `relmap` sets bit `n` exactly when `n` is in
      `relmap` and some bit of `orig` is, modulo the weight, the ordinal of `n`. */
  method FoldOnto(dst: array<Word>, tmp: array<Word>, orig: array<Word>, relmap: array<Word>, bits: nat)
    requires dst.Length == tmp.Length == Longs(bits) && bits <= 64 * orig.Length && bits <= 64 * relmap.Length
    requires dst != relmap && dst != tmp && dst != orig && tmp != orig && tmp != relmap && Rank(relmap[..], bits) > 0
    modifies dst, tmp
    ensures forall n: nat :: Bit(dst[..], n) <==>
      n < bits && Bit(relmap[..], n) && Folded(orig[..], Rank(relmap[..], bits), bits, Rank(relmap[..], n))
  {
    hide Bitmap.Bit, Rank, Folded;
    ghost var o, r := orig[..], relmap[..];
    var w := Weight(relmap, bits);
    Fold(tmp, orig, w, bits);
    assert relmap[..] == r;
    Onto(dst, tmp, relmap, bits);
    assert relmap[..] == r && orig[..] == o;
  }
}

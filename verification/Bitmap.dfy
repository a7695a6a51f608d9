/** Bitmaps as arrays of 64-bit longs. A long is the set of its one bits, so and, or and complement are intersection,
    union and difference. */
module Bitmap {

  /** An unsigned long, as the set of the positions of its one bits. */
  type Word = w: set<nat> | forall b :: b in w ==> b < 64

  predicate Between(lo: nat, b: nat, hi: nat) { lo <= b < hi }

  /** The word with bits `lo` to `hi - 1` set. */
  function Mask(lo: nat, hi: nat): (m: Word)
    requires hi <= 64
    ensures forall b :: b in m <==> lo <= b < hi
  {
    set b: nat | b < 64 && Between(lo, b, hi)
  }

  /** BITMAP_FIRST_WORD_MASK */
  function FirstWordMask(start: nat): Word { Mask(start % 64, 64) }

  /** BITMAP_LAST_WORD_MASK: all ones when `bits` is a multiple of the word size. */
  function LastWordMask(bits: nat): Word { Mask(0, if bits % 64 == 0 then 64 else bits % 64) }

  /** BITS_TO_LONGS */
  function Longs(bits: nat): nat { (bits + 63) / 64 }

  /** Bit `p` is set. */
  predicate Bit(w: seq<Word>, p: nat) {
    p / 64 < |w| && p % 64 in w[p / 64]
  }

  /** The positions of all set bits. */
  ghost function Positions(w: seq<Word>): (s: set<nat>)
    ensures forall p :: p in s <==> Bit(w, p)
  {
    set p: nat | p < 64 * |w| && Bit(w, p)
  }

  /** Bits `lo` to `hi - 1`. */
  ghost function Range(lo: nat, hi: nat): (s: set<nat>)
    ensures forall p :: p in s <==> lo <= p < hi
  {
    set p: nat | p < hi && Between(lo, p, hi)
  }

  lemma SamePositions(a: seq<Word>, s: set<nat>)
    requires forall p: nat :: Bit(a, p) <==> p in s
    ensures Positions(a) == s
  {
  }

  /** What word `k` contributes. */
  lemma WordBit(w: seq<Word>, k: nat, b: nat)
    requires k < |w| && b < 64
    ensures Bit(w, 64 * k + b) <==> b in w[k]
  {
    assert (64 * k + b) / 64 == k && (64 * k + b) % 64 == b;
  }

  // ---------- single bits and searches, as the bit operations promise them

  /** set_bit */
  method SetBit(a: array<Word>, p: nat)
    requires p / 64 < a.Length
    modifies a
    ensures Positions(a[..]) == old(Positions(a[..])) + {p}
  {
    a[p / 64] := a[p / 64] + {p % 64};
    ghost var before, after := old(a[..]), a[..];
    forall q: nat
      ensures Bit(after, q) <==> Bit(before, q) || q == p
    {
      assert q == 64 * (q / 64) + q % 64 && p == 64 * (p / 64) + p % 64;
    }
    SamePositions(after, Positions(before) + {p});
  }

  /** find_next_bit: the first set bit from `start` on, `size` if there is none. */
  function NextBit(w: seq<Word>, size: nat, start: nat): (r: nat)
    requires size <= 64 * |w|
    ensures r <= size && (start < size ==> start <= r) && (r < size ==> start <= r && Bit(w, r))
    ensures forall p :: start <= p < r ==> !Bit(w, p)
    decreases size - start
  {
    if start >= size then size else if Bit(w, start) then start else NextBit(w, size, start + 1)
  }

  /** find_next_zero_bit */
  function NextZeroBit(w: seq<Word>, size: nat, start: nat): (r: nat)
    requires size <= 64 * |w|
    ensures r <= size && (start < size ==> start <= r) && (r < size ==> start <= r && !Bit(w, r))
    ensures forall p :: start <= p < r ==> Bit(w, p)
    decreases size - start
  {
    if start >= size then size else if !Bit(w, start) then start else NextZeroBit(w, size, start + 1)
  }

  // ---------- ranges of bits

  /** bitmap_zero */
  method Zero(a: array<Word>, nbits: nat)
    requires a.Length == Longs(nbits)
    modifies a
    ensures forall p: nat :: !Bit(a[..], p)
  {
    var k := 0;
    while k < a.Length
      invariant 0 <= k <= a.Length && forall i | 0 <= i < k :: a[i] == {}
    {
      a[k] := {};
      k := k + 1;
    }
  }

  /** __bitmap_set: exactly the bits of the range are added. */
  method SetRange(a: array<Word>, start: nat, len: nat)
    requires start + len <= 64 * a.Length
    modifies a
    ensures Positions(a[..]) == old(Positions(a[..])) + Range(start, start + len)
  {
    hide Positions, Range, Mask, LastWordMask;
    var p, left := start / 64, len;
    var bits, mask := 64 - start % 64, FirstWordMask(start);
    ghost var was, at := Positions(a[..]), start;
    assert was + Range(start, start) == was;
    while left >= bits
      invariant 0 <= p <= a.Length && 0 <= left && at + left == start + len && at / 64 == p && bits == 64 - at % 64
      invariant mask == FirstWordMask(at)
      invariant Positions(a[..]) == was + Range(start, at)
      decreases left
    {
      AddMask(a, p, mask, at % 64, 64);
      Adjacent(start, at, at + bits);
      left := left - bits;
      at := at + bits;
      bits := 64;
      mask := FirstWordMask(0);
      p := p + 1;
    }
    if left > 0 {
      LastMask(at, left);
      mask := mask * LastWordMask(start + len);
      AddMask(a, p, mask, at % 64, at % 64 + left);
      Adjacent(start, at, start + len);
    }
  }

  lemma LastMask(at: nat, left: nat)
    requires 0 < left < 64 - at % 64
    ensures FirstWordMask(at) * LastWordMask(at + left) == Mask(at % 64, at % 64 + left)
  {
    assert (at + left) % 64 == at % 64 + left;
  }

  lemma Adjacent(a: nat, b: nat, c: nat)
    requires a <= b <= c
    ensures Range(a, b) + Range(b, c) == Range(a, c)
  {
  }

  /** One long or-ed with a mask. */
  method AddMask(a: array<Word>, p: nat, mask: Word, ghost lo: nat, ghost hi: nat)
    requires p < a.Length && lo <= hi <= 64 && mask == Mask(lo, hi)
    modifies a
    ensures Positions(a[..]) == old(Positions(a[..])) + Range(64 * p + lo, 64 * p + hi)
    ensures forall k :: 0 <= k < a.Length && k != p ==> a[k] == old(a[k])
  {
    a[p] := a[p] + mask;
    MaskAdded(old(a[..]), a[..], p, mask, lo, hi);
  }

  lemma MaskAdded(w: seq<Word>, v: seq<Word>, p: nat, mask: Word, lo: nat, hi: nat)
    requires p < |w| && v == w[p := w[p] + mask] && lo <= hi <= 64 && mask == Mask(lo, hi)
    ensures Positions(v) == Positions(w) + Range(64 * p + lo, 64 * p + hi)
  {
    forall q: nat
      ensures Bit(v, q) <==> Bit(w, q) || 64 * p + lo <= q < 64 * p + hi
    {
      assert q == 64 * (q / 64) + q % 64;
    }
    SamePositions(v, Positions(w) + Range(64 * p + lo, 64 * p + hi));
  }

  /** __bitmap_clear: exactly the bits of the range are removed. */
  method ClearRange(a: array<Word>, start: nat, len: nat)
    requires start + len <= 64 * a.Length
    modifies a
    ensures Positions(a[..]) == old(Positions(a[..])) - Range(start, start + len)
  {
    hide Positions, Range, Mask, LastWordMask;
    var p, left := start / 64, len;
    var bits, mask := 64 - start % 64, FirstWordMask(start);
    ghost var was, at := Positions(a[..]), start;
    assert was - Range(start, start) == was;
    while left >= bits
      invariant 0 <= p <= a.Length && 0 <= left && at + left == start + len && at / 64 == p && bits == 64 - at % 64
      invariant mask == FirstWordMask(at)
      invariant Positions(a[..]) == was - Range(start, at)
      decreases left
    {
      DropMask(a, p, mask, at % 64, 64);
      Adjacent(start, at, at + bits);
      left := left - bits;
      at := at + bits;
      bits := 64;
      mask := FirstWordMask(0);
      p := p + 1;
    }
    if left > 0 {
      LastMask(at, left);
      mask := mask * LastWordMask(start + len);
      DropMask(a, p, mask, at % 64, at % 64 + left);
      Adjacent(start, at, start + len);
    }
  }

  /** One long and-ed with the complement of a mask. */
  method DropMask(a: array<Word>, p: nat, mask: Word, ghost lo: nat, ghost hi: nat)
    requires p < a.Length && lo <= hi <= 64 && mask == Mask(lo, hi)
    modifies a
    ensures Positions(a[..]) == old(Positions(a[..])) - Range(64 * p + lo, 64 * p + hi)
    ensures forall k :: 0 <= k < a.Length && k != p ==> a[k] == old(a[k])
  {
    a[p] := a[p] - mask;
    MaskDropped(old(a[..]), a[..], p, mask, lo, hi);
  }

  lemma MaskDropped(w: seq<Word>, v: seq<Word>, p: nat, mask: Word, lo: nat, hi: nat)
    requires p < |w| && v == w[p := w[p] - mask] && lo <= hi <= 64 && mask == Mask(lo, hi)
    ensures Positions(v) == Positions(w) - Range(64 * p + lo, 64 * p + hi)
  {
    forall q: nat
      ensures Bit(v, q) <==> Bit(w, q) && !(64 * p + lo <= q < 64 * p + hi)
    {
      assert q == 64 * (q / 64) + q % 64;
    }
    SamePositions(v, Positions(w) - Range(64 * p + lo, 64 * p + hi));
  }
}

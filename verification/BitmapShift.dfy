/** Shifts of whole bitmaps, word by word and in place. */
module BitmapShift {
  import opened Bitmap

  // ---------- shifts of one long

  predicate Below(x: Word, b: nat, n: nat) { n <= b && b - n in x }

  predicate Above(x: Word, b: nat, n: nat) { b + n in x }

  /** x << n */
  function Shl(x: Word, n: nat): (r: Word)
    ensures forall b :: b in r <==> b < 64 && Below(x, b, n)
  {
    set b: nat | b < 64 && Below(x, b, n)
  }

  /** x >> n */
  function Shr(x: Word, n: nat): (r: Word)
    ensures forall b :: b in r <==> b < 64 && Above(x, b, n)
  {
    set b: nat | b < 64 && Above(x, b, n)
  }

  // ---------- right shift

  /** Word `j` of a bitmap of `nbits` bits, without the unused bits. */
  function Masked(s: seq<Word>, nbits: nat, j: nat): Word
    requires j < Longs(nbits) <= |s|
  {
    if j == Longs(nbits) - 1 then s[j] * LastWordMask(nbits) else s[j]
  }

  /** The result word made of the words at and above `j`. */
  function RightWord(s: seq<Word>, nbits: nat, rem: nat, j: nat): Word
    requires j < Longs(nbits) <= |s| && rem < 64
  {
    var upper := if rem == 0 || j + 1 >= Longs(nbits) then {} else Shl(Masked(s, nbits, j + 1), 64 - rem);
    Shr(Masked(s, nbits, j), rem) + upper
  }

  /** Bit `b` of word `j` counts when it is set and is one of the `nbits` bits. */
  lemma MaskedBit(s: seq<Word>, nbits: nat, j: nat, b: nat)
    requires j < Longs(nbits) <= |s| && b < 64
    ensures b in Masked(s, nbits, j) <==> 64 * j + b < nbits && Bit(s, 64 * j + b)
  {
    WordBit(s, j, b);
  }

  lemma RightBit(s: seq<Word>, nbits: nat, rem: nat, j: nat, b: nat)
    requires j < Longs(nbits) <= |s| && rem < 64 && b < 64
    ensures b in RightWord(s, nbits, rem, j) <==> 64 * j + b + rem < nbits && Bit(s, 64 * j + b + rem)
  {
    hide RightWord, Masked, Bitmap.Bit;
    RightPieces(s, nbits, rem, j, b);
    if b + rem < 64 {
      MaskedBit(s, nbits, j, b + rem);
    } else if j + 1 < Longs(nbits) {
      MaskedBit(s, nbits, j + 1, b + rem - 64);
    }
  }

  lemma RightPieces(s: seq<Word>, nbits: nat, rem: nat, j: nat, b: nat)
    requires j < Longs(nbits) <= |s| && rem < 64 && b < 64
    ensures b in RightWord(s, nbits, rem, j) <==>
      if b + rem < 64 then b + rem in Masked(s, nbits, j)
      else j + 1 < Longs(nbits) && b + rem - 64 in Masked(s, nbits, j + 1)
  {
    hide Shl, Shr, Masked;
    assert Above(Masked(s, nbits, j), b, rem) <==> b + rem in Masked(s, nbits, j);
    if rem > 0 && j + 1 < Longs(nbits) {
      var x := Masked(s, nbits, j + 1);
      assert Below(x, b, 64 - rem) <==> b + rem >= 64 && b - (64 - rem) in x;
    }
  }

  /** __bitmap_shift_right: bit `p` of the result is bit `p + shift` of the source, zero from `nbits` on; the two may be
      the same bitmap. */
  method ShiftRight(dst: array<Word>, src: array<Word>, shift: nat, nbits: nat)
    requires Longs(nbits) <= dst.Length && Longs(nbits) <= src.Length && shift / 64 <= Longs(nbits)
    modifies dst
    ensures forall p: nat | p < 64 * Longs(nbits) ::
      Bit(dst[..], p) <==> p + shift < nbits && Bit(old(src[..]), p + shift)
    ensures forall k | Longs(nbits) <= k < dst.Length :: dst[k] == old(dst[k])
  {
    hide RightWord, Masked, Bitmap.Bit;
    ghost var s := src[..];
    var k, lim := 0, Longs(nbits);
    var off, rem := shift / 64, shift % 64;
    while off + k < lim
      invariant 0 <= k && off + k <= lim
      invariant forall i | 0 <= i < k :: dst[i] == RightWord(s, nbits, rem, off + i)
      invariant forall i | k <= i < src.Length :: src[i] == s[i]
      invariant forall i | lim <= i < dst.Length :: dst[i] == old(dst[i])
    {
      SameRight(src[..], s, nbits, rem, off + k);
      dst[k] := RightWord(src[..], nbits, rem, off + k);
      k := k + 1;
    }
    while k < lim
      invariant lim - off <= k <= lim
      invariant forall i | 0 <= i < lim - off :: dst[i] == RightWord(s, nbits, rem, off + i)
      invariant forall i | lim - off <= i < k :: dst[i] == {}
      invariant forall i | lim <= i < dst.Length :: dst[i] == old(dst[i])
    {
      dst[k] := {};
      k := k + 1;
    }
    forall p: nat | p < 64 * lim
      ensures Bit(dst[..], p) <==> p + shift < nbits && Bit(s, p + shift)
    {
      RightDone(dst[..], s, shift, nbits, p);
    }
  }

  /** The words that have not been overwritten are enough. */
  lemma SameRight(now: seq<Word>, s: seq<Word>, nbits: nat, rem: nat, j: nat)
    requires |now| == |s| && j < Longs(nbits) <= |s| && rem < 64 && forall i | j <= i < |s| :: now[i] == s[i]
    ensures RightWord(now, nbits, rem, j) == RightWord(s, nbits, rem, j)
  {
  }

  lemma RightDone(d: seq<Word>, s: seq<Word>, shift: nat, nbits: nat, p: nat)
    requires Longs(nbits) <= |d| && Longs(nbits) <= |s| && p < 64 * Longs(nbits)
    requires var off := shift / 64; var lim := Longs(nbits);
      forall i | 0 <= i < lim :: d[i] == if off + i < lim then RightWord(s, nbits, shift % 64, off + i) else {}
    ensures Bit(d, p) <==> p + shift < nbits && Bit(s, p + shift)
  {
    hide RightWord;
    var j, b := shift / 64 + p / 64, p % 64;
    assert 64 * j + b + shift % 64 == p + shift;
    if j < Longs(nbits) {
      RightBit(s, nbits, shift % 64, j, b);
    }
  }

  // ---------- left shift

  function LeftWord(s: seq<Word>, rem: nat, k: nat): Word
    requires k < |s| && rem < 64
  {
    var lower := if rem > 0 && k > 0 then Shr(s[k - 1], 64 - rem) else {};
    lower + Shl(s[k], rem)
  }

  lemma SameLeft(now: seq<Word>, s: seq<Word>, rem: nat, k: nat)
    requires |now| == |s| && k < |s| && rem < 64 && forall i | 0 <= i <= k :: now[i] == s[i]
    ensures LeftWord(now, rem, k) == LeftWord(s, rem, k)
  {
  }

  lemma LeftBit(s: seq<Word>, rem: nat, k: nat, b: nat)
    requires k < |s| && rem < 64 && b < 64
    ensures b in LeftWord(s, rem, k) <==> 64 * k + b >= rem && Bit(s, 64 * k + b - rem)
  {
    hide LeftWord, Bitmap.Bit;
    LeftPieces(s, rem, k, b);
    if b >= rem {
      WordBit(s, k, b - rem);
    } else if k > 0 {
      WordBit(s, k - 1, b + 64 - rem);
    }
  }

  lemma LeftPieces(s: seq<Word>, rem: nat, k: nat, b: nat)
    requires k < |s| && rem < 64 && b < 64
    ensures b in LeftWord(s, rem, k) <==>
      if b >= rem then b - rem in s[k] else k > 0 && b + 64 - rem in s[k - 1]
  {
    hide Shl, Shr;
    assert Below(s[k], b, rem) <==> b >= rem && b - rem in s[k];
    if rem > 0 && k > 0 {
      assert Above(s[k - 1], b, 64 - rem) <==> b + (64 - rem) in s[k - 1];
    }
  }

  /** __bitmap_shift_left: bit `p` of the result is bit `p - shift` of the source, zero below `shift`; the two may be
      the same bitmap. */
  method ShiftLeft(dst: array<Word>, src: array<Word>, shift: nat, nbits: nat)
    requires Longs(nbits) <= dst.Length && Longs(nbits) <= src.Length && shift / 64 <= Longs(nbits)
    modifies dst
    ensures forall p: nat | p < 64 * Longs(nbits) ::
      Bit(dst[..], p) <==> p >= shift && Bit(old(src[..]), p - shift)
    ensures forall k | Longs(nbits) <= k < dst.Length :: dst[k] == old(dst[k])
  {
    hide LeftWord, Bitmap.Bit;
    ghost var s := src[..];
    var lim := Longs(nbits);
    var off, rem := shift / 64, shift % 64;
    var k := lim - off - 1;
    while k >= 0
      invariant -1 <= k < lim - off
      invariant forall i | k < i < lim - off :: dst[i + off] == LeftWord(s, rem, i)
      invariant forall i | 0 <= i <= k :: src[i] == s[i]
      invariant forall i | lim <= i < dst.Length :: dst[i] == old(dst[i])
    {
      SameLeft(src[..], s, rem, k);
      dst[k + off] := LeftWord(src[..], rem, k);
      k := k - 1;
    }
    ghost var mid := dst[..];
    k := 0;
    while k < off
      invariant 0 <= k <= off
      invariant forall i | off <= i < dst.Length :: dst[i] == mid[i]
      invariant forall i | 0 <= i < k :: dst[i] == {}
    {
      dst[k] := {};
      k := k + 1;
    }
    forall i | off <= i < lim
      ensures dst[i] == LeftWord(s, rem, i - off)
    {
      assert mid[(i - off) + off] == LeftWord(s, rem, i - off);
    }
    forall p: nat | p < 64 * lim
      ensures Bit(dst[..], p) <==> p >= shift && Bit(s, p - shift)
    {
      LeftDone(dst[..], s, shift, lim, p);
    }
  }

  lemma LeftDone(d: seq<Word>, s: seq<Word>, shift: nat, lim: nat, p: nat)
    requires lim <= |d| && lim <= |s| && p < 64 * lim
    requires var off := shift / 64;
      forall i | 0 <= i < lim :: d[i] == if i < off then {} else LeftWord(s, shift % 64, i - off)
    ensures Bit(d, p) <==> p >= shift && Bit(s, p - shift)
  {
    hide LeftWord;
    var off, b := shift / 64, p % 64;
    if p / 64 >= off {
      var k := p / 64 - off;
      assert 64 * k + b - shift % 64 == p - shift;
      LeftBit(s, shift % 64, k, b);
    }
  }

  /** Left, then right by as much: what survives is what was not shifted off the top. */
  method ShiftThereAndBack(a: array<Word>, shift: nat, nbits: nat)
    requires Longs(nbits) <= a.Length && shift / 64 <= Longs(nbits)
    modifies a
    ensures forall p: nat | p < 64 * Longs(nbits) :: Bit(a[..], p) <==> p + shift < nbits && Bit(old(a[..]), p)
  {
    hide Bitmap.Bit;
    ghost var s := a[..];
    ShiftLeft(a, a, shift, nbits);
    ghost var t := a[..];
    ShiftRight(a, a, shift, nbits);
    forall p: nat | p < 64 * Longs(nbits)
      ensures Bit(a[..], p) <==> p + shift < nbits && Bit(s, p)
    {
      assert p + shift < nbits ==> (Bit(t, p + shift) <==> Bit(s, p + shift - shift));
    }
  }
}

/** The region allocator: areas of 2^order bits, aligned to their size. */
module BitmapRegion {
  import opened Common
  import opened Arithmetic
  import opened Bitmap

  datatype Region = Region(pos: nat, order: nat)

  function Size(r: Region): nat { Pow2(r.order) }

  ghost function Bits(r: Region): set<nat> { Range(r.pos, r.pos + Size(r)) }

  /** The region lies in a bitmap of `bits` bits and is aligned. */
  predicate Fits(r: Region, bits: nat) { r.pos % Size(r) == 0 && r.pos + Size(r) <= bits }

  // ---------- regions and words

  lemma SmallPowers(k: nat)
    ensures Pow2(6) == 64 && (k <= 6 ==> Pow2(k) in {1, 2, 4, 8, 16, 32, 64})
  {
    assert Pow2(0) == 1 && Pow2(1) == 2 && Pow2(2) == 4 && Pow2(3) == 8;
    assert Pow2(4) == 16 && Pow2(5) == 32 && Pow2(6) == 64;
    assert k <= 6 ==> k == 0 || k == 1 || k == 2 || k == 3 || k == 4 || k == 5 || k == 6;
  }

  /** A small region does not cross a word boundary; a large one starts at a boundary and covers whole words. */
  lemma RegionWords(r: Region)
    requires r.pos % Size(r) == 0
    ensures Size(r) <= 64 ==> r.pos % 64 + Size(r) <= 64
    ensures Size(r) > 64 ==> r.pos % 64 == 0 && Size(r) % 64 == 0
  {
    hide Pow2;
    SmallPowers(r.order);
    if r.order <= 6 {
      SmallAligned(r.pos, Size(r));
    } else {
      Pow2Add(6, r.order - 6);
      LargeAligned(r.pos, Size(r), Pow2(r.order - 6));
    }
  }

  lemma LargeAligned(p: nat, n: nat, m: nat)
    requires n == 64 * m && n > 0 && p % n == 0
    ensures p % 64 == 0 && n % 64 == 0
  {
    var q := p / n;
    assert p == n * q;
    Scale64(m, q);
    Remainder(p, 64, m * q, 0);
    Remainder(n, 64, m, 0);
  }

  lemma Scale64(m: nat, q: nat)
    ensures (64 * m) * q == 64 * (m * q)
  {
  }

  lemma SmallAligned(p: nat, n: nat)
    requires n in {1, 2, 4, 8, 16, 32, 64} && p % n == 0
    ensures p % 64 + n <= 64
  {
    var w, b := p / 64, p % 64;
    assert p == 64 * w + b;
    if n == 1 {
    } else if n == 2 {
      Divides(p, 2, w, b, 32);
    } else if n == 4 {
      Divides(p, 4, w, b, 16);
    } else if n == 8 {
      Divides(p, 8, w, b, 8);
    } else if n == 16 {
      Divides(p, 16, w, b, 4);
    } else if n == 32 {
      Divides(p, 32, w, b, 2);
    } else {
      Divides(p, 64, w, b, 1);
    }
  }

  /** The offset in the word is a multiple of a size that divides the word. */
  lemma Divides(p: nat, n: nat, w: nat, b: nat, m: nat)
    requires n > 0 && 64 == n * m && p == 64 * w + b && p % n == 0 && b < 64
    ensures b + n <= 64
  {
    var q := p / n;
    assert p == n * q;
    assert 64 * w == n * (m * w);
    assert b == n * (q - m * w);
    Fewer(n, q - m * w, m);
  }

  lemma Fewer(n: nat, k: int, m: nat)
    requires n * k < n * m
    ensures n * k + n <= n * m
  {
    Apart(n, m, k);
    Negative(n, m - k);
    if m > k {
      Scaled(n, m - k);
    }
  }

  lemma Apart(n: nat, m: int, k: int)
    ensures n * (m - k) == n * m - n * k
  {
  }

  lemma Negative(n: nat, k: int)
    ensures k <= 0 ==> n * k <= 0
  {
  }

  /** How a region lies in the words: `count` longs from `index` on, each with the bits `lo` to `hi - 1`. */
  datatype Span = Span(index: nat, count: nat, lo: nat, hi: nat)

  function Spanned(r: Region): (s: Span)
    requires r.pos % Size(r) == 0
    ensures s.lo < s.hi <= 64
  {
    RegionWords(r);
    var index := r.pos / 64;
    var offset, n := r.pos - index * 64, if Size(r) < 64 then Size(r) else 64;
    Span(index, Longs(Size(r)), offset, offset + n)
  }

  predicate InSpan(s: Span, p: nat) { s.index <= p / 64 < s.index + s.count && s.lo <= p % 64 < s.hi }

  lemma SpannedBits(r: Region)
    requires r.pos % Size(r) == 0
    ensures forall p :: p in Bits(r) <==> InSpan(Spanned(r), p)
    ensures Spanned(r).index + Spanned(r).count == Longs(r.pos + Size(r))
  {
    RegionWords(r);
    SpanParts(r);
    hide Spanned, Size, Longs;
    forall p
      ensures p in Bits(r) <==> InSpan(Spanned(r), p)
    {
      if p >= 0 {
        SpanPoint(r.pos, Size(r), p);
      }
    }
    SpanPoint(r.pos, Size(r), r.pos);
  }

  lemma SpanParts(r: Region)
    requires r.pos % Size(r) == 0
    ensures Size(r) > 0
    ensures var s := Spanned(r);
      && s.index == r.pos / 64 && s.count == Longs(Size(r)) && s.lo == r.pos % 64
      && s.hi == r.pos % 64 + if Size(r) < 64 then Size(r) else 64
  {
    hide Longs;
  }

  lemma SpanPoint(pos: nat, n: nat, p: nat)
    requires n > 0 && (n <= 64 ==> pos % 64 + n <= 64) && (n > 64 ==> pos % 64 == 0 && n % 64 == 0)
    ensures pos <= p < pos + n <==>
      pos / 64 <= p / 64 < pos / 64 + Longs(n) && pos % 64 <= p % 64 < pos % 64 + if n < 64 then n else 64
    ensures pos / 64 + Longs(n) == Longs(pos + n)
  {
  }

  // ---------- __reg_op

  ghost predicate Free(w: seq<Word>, r: Region) { Positions(w) !! Bits(r) }

  /** REG_OP_ISFREE */
  method IsFree(a: array<Word>, r: Region) returns (free: bool)
    requires Fits(r, 64 * a.Length)
    ensures free <==> Free(a[..], r)
  {
    hide Bits, Spanned, Positions, Mask;
    var s := Spanned(r);
    SpannedBits(r);
    var mask, i := Mask(s.lo, s.hi), 0;
    while i < s.count
      invariant 0 <= i <= s.count
      invariant forall k | s.index <= k < s.index + i :: a[k] !! mask
    {
      if !(a[s.index + i] !! mask) {
        UsedWord(a[..], r, s.index + i);
        return false;
      }
      i := i + 1;
    }
    FreeWords(a[..], r);
    free := true;
  }

  lemma UsedWord(w: seq<Word>, r: Region, k: nat)
    requires Fits(r, 64 * |w|)
    requires var s := Spanned(r); s.index <= k < s.index + s.count && k < |w| && !(w[k] !! Mask(s.lo, s.hi))
    ensures !Free(w, r)
  {
    hide Spanned, Bits, Mask, Positions, Pow2, Size;
    var s := Spanned(r);
    SpannedBits(r);
    var b :| b in w[k] && b in Mask(s.lo, s.hi);
    WordBit(w, k, b);
    var p := 64 * k + b;
    assert p / 64 == k && p % 64 == b;
    assert p in Bits(r) && p in Positions(w);
  }

  lemma FreeWords(w: seq<Word>, r: Region)
    requires Fits(r, 64 * |w|)
    requires var s := Spanned(r); s.index + s.count <= |w|
    requires var s := Spanned(r); forall k | s.index <= k < s.index + s.count :: w[k] !! Mask(s.lo, s.hi)
    ensures Free(w, r)
  {
    hide Spanned, Bits;
    SpannedBits(r);
    forall p | p in Bits(r)
      ensures p !in Positions(w)
    {
      var s := Spanned(r);
      assert InSpan(s, p) && p % 64 in Mask(s.lo, s.hi);
    }
  }

  /** REG_OP_ALLOC */
  method Alloc(a: array<Word>, r: Region)
    requires Fits(r, 64 * a.Length)
    modifies a
    ensures Positions(a[..]) == old(Positions(a[..])) + Bits(r)
  {
    hide Bits, Spanned, Positions, Mask;
    var s := Spanned(r);
    SpannedBits(r);
    var mask, i := Mask(s.lo, s.hi), 0;
    while i < s.count
      invariant 0 <= i <= s.count
      invariant forall k | 0 <= k < a.Length :: a[k] == old(a[k]) + if s.index <= k < s.index + i then mask else {}
    {
      a[s.index + i] := a[s.index + i] + mask;
      i := i + 1;
    }
    SamePositions(a[..], old(Positions(a[..])) + Bits(r));
  }

  /** REG_OP_RELEASE */
  method Clear(a: array<Word>, r: Region)
    requires Fits(r, 64 * a.Length)
    modifies a
    ensures Positions(a[..]) == old(Positions(a[..])) - Bits(r)
  {
    hide Bits, Spanned, Positions, Mask;
    var s := Spanned(r);
    SpannedBits(r);
    var mask, i := Mask(s.lo, s.hi), 0;
    while i < s.count
      invariant 0 <= i <= s.count
      invariant forall k | 0 <= k < a.Length :: a[k] == old(a[k]) - if s.index <= k < s.index + i then mask else {}
    {
      a[s.index + i] := a[s.index + i] - mask;
      i := i + 1;
    }
    SamePositions(a[..], old(Positions(a[..])) - Bits(r));
  }

  // ---------- the allocator

  /** `pos` is the least position of a free aligned region of `2^order` bits. */
  ghost predicate FirstFree(s: set<nat>, bits: nat, order: nat, pos: nat) {
    && Fits(Region(pos, order), bits) && s !! Bits(Region(pos, order))
    && forall q: nat | q < pos && Fits(Region(q, order), bits) :: !(s !! Bits(Region(q, order)))
  }

  ghost predicate NoneFree(s: set<nat>, bits: nat, order: nat) {
    forall q: nat | Fits(Region(q, order), bits) :: !(s !! Bits(Region(q, order)))
  }

  /** bitmap_find_free_region: the least free aligned position is taken; it fails exactly when there is none. */
  method FindFreeRegion(a: array<Word>, bits: nat, order: nat) returns (r: Option<nat>)
    requires bits <= 64 * a.Length
    modifies a
    ensures match r
      case None => NoneFree(old(Positions(a[..])), bits, order) && Positions(a[..]) == old(Positions(a[..]))
      case Some(pos) => FirstFree(old(Positions(a[..])), bits, order, pos)
                        && Positions(a[..]) == old(Positions(a[..])) + Bits(Region(pos, order))
  {
    hide Bits, Positions, Pow2;
    var pos, n := 0, Pow2(order);
    ghost var s := Positions(a[..]);
    while pos + n <= bits
      invariant 0 <= pos && pos % n == 0 && Positions(a[..]) == s && n == Pow2(order)
      invariant forall q: nat | q < pos && Fits(Region(q, order), bits) :: !(s !! Bits(Region(q, order)))
      decreases bits - pos
    {
      var free := IsFree(a, Region(pos, order));
      if free {
        Alloc(a, Region(pos, order));
        return Some(pos);
      }
      NextAligned(pos, n);
      pos := pos + n;
    }
    r := None;
  }

  /** There is no aligned position between two neighbours. */
  lemma NextAligned(pos: nat, n: nat)
    requires n > 0 && pos % n == 0
    ensures (pos + n) % n == 0
    ensures forall q | pos < q < pos + n :: q % n != 0
  {
    assert pos == n * (pos / n);
    AddMultiple(pos, 1, n);
    forall q | pos < q < pos + n
      ensures q % n != 0
    {
      assert q == n * (pos / n) + (q - pos);
      Remainder(q, n, pos / n, q - pos);
    }
  }

  /** bitmap_allocate_region: all of the region or nothing. */
  method AllocateRegion(a: array<Word>, r: Region) returns (ok: bool)
    requires Fits(r, 64 * a.Length)
    modifies a
    ensures ok <==> old(Positions(a[..])) !! Bits(r)
    ensures Positions(a[..]) == old(Positions(a[..])) + if ok then Bits(r) else {}
  {
    ok := IsFree(a, r);
    if ok {
      Alloc(a, r);
    }
  }

  /** bitmap_release_region */
  method ReleaseRegion(a: array<Word>, r: Region)
    requires Fits(r, 64 * a.Length)
    modifies a
    ensures Positions(a[..]) == old(Positions(a[..])) - Bits(r)
  {
    Clear(a, r);
  }

  // ---------- runs

  /** The set bits, and the regions handed out and not yet released. */
  datatype State = State(bitmap: set<nat>, live: set<Region>)

  datatype Op = Find(order: nat) | Allocate(region: Region) | Release(region: Region)

  ghost predicate Allowed(st: State, bits: nat, op: Op) {
    match op
    case Find(_) => true
    case Allocate(r) => Fits(r, bits)
    case Release(r) => r in st.live
  }

  /** What one call does to the bitmap and to the caller's regions. */
  ghost predicate Step(st: State, bits: nat, op: Op, st': State) {
    match op
    case Find(order) =>
      || (NoneFree(st.bitmap, bits, order) && st' == st)
      || (exists pos :: FirstFree(st.bitmap, bits, order, pos) && Taken(st, Region(pos, order), st'))
    case Allocate(r) => if st.bitmap !! Bits(r) then Taken(st, r, st') else st' == st
    case Release(r) => st' == State(st.bitmap - Bits(r), st.live - {r})
  }

  ghost predicate Taken(st: State, r: Region, st': State) { st' == State(st.bitmap + Bits(r), st.live + {r}) }

  /** Live regions are aligned, inside the bitmap, clear of the initial bits and of each other, and the bitmap is
      exactly the initial bits and the live regions. */
  ghost predicate Inv(init: set<nat>, bits: nat, st: State) {
    && (forall r | r in st.live :: Fits(r, bits) && init !! Bits(r))
    && (forall r, t | r in st.live && t in st.live && r != t :: Bits(r) !! Bits(t))
    && Exact(init, st)
  }

  ghost predicate Exact(init: set<nat>, st: State) {
    && init <= st.bitmap
    && (forall r | r in st.live :: Bits(r) <= st.bitmap)
    && (forall p | p in st.bitmap :: p in init || exists r :: r in st.live && p in Bits(r))
  }

  lemma TakenKeeps(init: set<nat>, bits: nat, st: State, r: Region, st': State)
    requires Inv(init, bits, st) && Fits(r, bits) && st.bitmap !! Bits(r) && Taken(st, r, st')
    ensures Inv(init, bits, st')
  {
    hide Bits, Fits;
    forall p | p in st'.bitmap
      ensures p in init || exists t :: t in st'.live && p in Bits(t)
    {
      if p in Bits(r) {
        assert r in st'.live;
      } else if p !in init {
        var t :| t in st.live && p in Bits(t);
        assert t in st'.live;
      }
    }
  }

  lemma ReleaseKeeps(init: set<nat>, bits: nat, st: State, r: Region)
    requires Inv(init, bits, st) && r in st.live
    ensures Inv(init, bits, State(st.bitmap - Bits(r), st.live - {r}))
  {
    hide Bits, Fits;
    var st' := State(st.bitmap - Bits(r), st.live - {r});
    forall p | p in st'.bitmap
      ensures p in init || exists t :: t in st'.live && p in Bits(t)
    {
      if p !in init {
        var t :| t in st.live && p in Bits(t);
        assert t in st'.live;
      }
    }
  }

  lemma StepKeeps(init: set<nat>, bits: nat, st: State, op: Op, st': State)
    requires Inv(init, bits, st) && Allowed(st, bits, op) && Step(st, bits, op, st')
    ensures Inv(init, bits, st')
  {
    hide Inv, Bits, Fits, Taken;
    match op
    case Find(order) =>
      if st' != st {
        var pos :| FirstFree(st.bitmap, bits, order, pos) && Taken(st, Region(pos, order), st');
        TakenKeeps(init, bits, st, Region(pos, order), st');
      }
    case Allocate(r) =>
      if st.bitmap !! Bits(r) {
        TakenKeeps(init, bits, st, r, st');
      }
    case Release(r) => ReleaseKeeps(init, bits, st, r);
  }

  /** A run of calls on a bitmap that starts with the bits `init`. */
  ghost predicate IsRun(init: set<nat>, bits: nat, states: seq<State>, ops: seq<Op>) {
    && |states| == |ops| + 1 && states[0] == State(init, {})
    && forall i | 0 <= i < |ops| :: Allowed(states[i], bits, ops[i]) && Step(states[i], bits, ops[i], states[i + 1])
  }

  /** In every run, after every call: live regions are pairwise disjoint and the bitmap is exactly their union with the
      initial bits; once everything is released it is the initial bitmap again. */
  lemma {:induction false} RunExact(init: set<nat>, bits: nat, states: seq<State>, ops: seq<Op>, i: nat)
    requires IsRun(init, bits, states, ops) && i <= |ops|
    ensures Inv(init, bits, states[i])
    ensures states[i].live == {} ==> states[i].bitmap == init
  {
    if i > 0 {
      RunExact(init, bits, states, ops, i - 1);
      StepKeeps(init, bits, states[i - 1], ops[i - 1], states[i]);
    }
  }

  /** The calls of the library take exactly these steps. */
  method Perform(a: array<Word>, bits: nat, op: Op, ghost st: State) returns (r: Option<Region>, ghost st': State)
    requires bits <= 64 * a.Length && st.bitmap == Positions(a[..]) && Allowed(st, bits, op)
    requires forall t | t in st.live :: Fits(t, bits)
    modifies a
    ensures Step(st, bits, op, st') && st'.bitmap == Positions(a[..])
    ensures r.Some? && !op.Release? ==> st'.live == st.live + {r.value}
  {
    hide Bits, Positions, FirstFree, NoneFree, Fits;
    match op
    case Find(order) =>
      var pos := FindFreeRegion(a, bits, order);
      if pos.None? {
        return None, st;
      }
      r := Some(Region(pos.value, order));
      st' := State(Positions(a[..]), st.live + {r.value});
      assert FirstFree(st.bitmap, bits, order, pos.value) && Taken(st, Region(pos.value, order), st');
    case Allocate(t) =>
      FitsMore(t, bits, 64 * a.Length);
      var ok := AllocateRegion(a, t);
      r := if ok then Some(t) else None;
      st' := State(Positions(a[..]), if ok then st.live + {t} else st.live);
    case Release(t) =>
      FitsMore(t, bits, 64 * a.Length);
      ReleaseRegion(a, t);
      r := None;
      st' := State(Positions(a[..]), st.live - {t});
  }

  lemma FitsMore(r: Region, bits: nat, more: nat)
    requires bits <= more
    ensures Fits(r, bits) ==> Fits(r, more)
  {
  }
}

/** The first-fit search for an aligned area of zero bits. */
module BitmapArea {
  import opened Arithmetic
  import opened Bitmap

  /** __ALIGN_MASK for the mask `align - 1`: the least multiple of `align` that is at least `x`. */
  function AlignUp(x: nat, align: nat): (r: nat)
    requires align > 0
    ensures r >= x
  {
    AlignBounds(x, align);
    (x + align - 1) / align * align
  }

  lemma AlignBounds(x: nat, align: nat)
    requires align > 0
    ensures x <= (x + align - 1) / align * align < x + align
  {
    var q := (x + align - 1) / align;
    assert x + align - 1 == align * q + (x + align - 1) % align;
    assert q * align == align * q;
  }

  lemma AlignLeast(x: nat, align: nat, y: nat)
    requires align > 0 && x <= y && y % align == 0
    ensures AlignUp(x, align) <= y && AlignUp(x, align) % align == 0
  {
    var q, k := (x + align - 1) / align, y / align;
    Multiple(q, align);
    if k < q {
      assert x + align - 1 == align * q + (x + align - 1) % align && y == align * k;
      assert align * (q - k) == align * q - align * k;
      Scaled(align, q - k);
    } else {
      NotBelow(align, q, k);
    }
  }

  lemma NotBelow(m: nat, q: nat, k: nat)
    requires q <= k
    ensures q * m <= m * k
  {
    assert m * k == m * q + m * (k - q);
  }

  /** `i` heads `nr` zero bits below `size`, and `i + offset` is a multiple of `align`. */
  ghost predicate Area(w: seq<Word>, size: nat, nr: nat, align: nat, offset: nat, i: nat)
    requires align > 0
  {
    i + nr <= size && (i + offset) % align == 0 && forall p :: i <= p < i + nr ==> !Bit(w, p)
  }

  /** `r` is the least area at or after `start`, or a value above `size` when there is none. */
  ghost predicate LeastArea(w: seq<Word>, size: nat, start: nat, nr: nat, align: nat, offset: nat, r: nat)
    requires align > 0
  {
    if r <= size then
      && start <= r && Area(w, size, nr, align, offset, r)
      && forall i | start <= i < r :: !Area(w, size, nr, align, offset, i)
    else forall i | start <= i :: !Area(w, size, nr, align, offset, i)
  }

  /** The first position the search looks at. */
  function FirstTry(w: seq<Word>, size: nat, start: nat, align: nat, offset: nat): nat
    requires size <= 64 * |w| && align > 0
  {
    AlignUp(NextZeroBit(w, size, start) + offset, align) - offset
  }

  /** bitmap_find_next_zero_area_off: for a request of at least one bit, the least area; an empty request ends at the
      first position looked at. */
  method FindNextZeroArea(a: array<Word>, size: nat, start: nat, nr: nat, align: nat, offset: nat) returns (r: nat)
    requires size <= 64 * a.Length && align > 0
    ensures nr > 0 ==> LeastArea(a[..], size, start, nr, align, offset, r)
    ensures nr == 0 ==> r == FirstTry(a[..], size, start, align, offset)
  {
    hide AlignUp;
    ghost var w := a[..];
    var from := start;
    while true
      invariant start <= from && (nr == 0 ==> from == start)
      invariant nr > 0 ==> forall i :: start <= i < from ==> !Area(w, size, nr, align, offset, i)
      decreases size + 1 - from
    {
      var index := NextZeroBit(a[..], size, from);
      index := AlignUp(index + offset, align) - offset;
      var end := index + nr;
      NoneBefore(w, size, from, nr, align, offset, index);
      if end > size {
        return end;
      }
      var i := NextBit(a[..], end, index);
      if i >= end {
        return index;
      }
      from := i + 1;
    }
  }

  ghost predicate Aligned(i: nat, align: nat, offset: nat)
    requires align > 0
  {
    (i + offset) % align == 0
  }

  /** An empty request meets the same promise exactly when the search, from a start within the bitmap, passes no aligned
      position on its way to the first zero bit, and from a start beyond the bitmap when its size is not aligned. */
  lemma EmptyRequest(w: seq<Word>, size: nat, start: nat, align: nat, offset: nat)
    requires size <= 64 * |w| && align > 0
    ensures LeastArea(w, size, start, 0, align, offset, FirstTry(w, size, start, align, offset)) <==>
      if start <= size then forall i | start <= i < NextZeroBit(w, size, start) :: !Aligned(i, align, offset)
      else !Aligned(size, align, offset)
  {
    hide AlignUp, Bitmap.Bit;
    var z, r := NextZeroBit(w, size, start), FirstTry(w, size, start, align, offset);
    AlignedItself(z + offset, align);
    forall i | z <= i < r
      ensures !Aligned(i, align, offset)
    {
      if Aligned(i, align, offset) {
        AlignLeast(z + offset, align, i + offset);
      }
    }
    AlignedAreas(w, size, align, offset);
    assert Aligned(r, align, offset);
    hide Area, Aligned;
  }

  lemma AlignedAreas(w: seq<Word>, size: nat, align: nat, offset: nat)
    requires align > 0
    ensures forall i: nat :: Area(w, size, 0, align, offset, i) <==> i <= size && Aligned(i, align, offset)
  {
  }

  /** Without alignment, an empty request that starts at a set bit is always answered too high. */
  lemma EmptyRequestSkips(w: seq<Word>, size: nat, start: nat)
    requires size <= 64 * |w| && start < size && Bit(w, start)
    ensures !LeastArea(w, size, start, 0, 1, 0, FirstTry(w, size, start, 1, 0))
  {
    hide LeastArea;
    EmptyRequest(w, size, start, 1, 0);
    assert Aligned(start, 1, 0);
  }

  /** Without alignment, an empty request that starts beyond the bitmap is always answered with the size, below it. */
  lemma EmptyRequestBeyond(w: seq<Word>, size: nat, start: nat)
    requires size <= 64 * |w| && size < start
    ensures FirstTry(w, size, start, 1, 0) == size < start
    ensures !LeastArea(w, size, start, 0, 1, 0, size)
  {
    EmptyRequest(w, size, start, 1, 0);
  }

  /** No area starts between the search position and the aligned position. */
  lemma NoneBefore(w: seq<Word>, size: nat, from: nat, nr: nat, align: nat, offset: nat, index: nat)
    requires size <= 64 * |w| && align > 0
    requires index == AlignUp(NextZeroBit(w, size, from) + offset, align) - offset
    ensures nr > 0 ==> forall i :: from <= i < index ==> !Area(w, size, nr, align, offset, i)
    ensures (index + offset) % align == 0
  {
    hide NextZeroBit, AlignUp, Bitmap.Bit;
    var z := NextZeroBit(w, size, from);
    AlignedItself(z + offset, align);
    forall i | nr > 0 && from <= i < index
      ensures !Area(w, size, nr, align, offset, i)
    {
      if Area(w, size, nr, align, offset, i) {
        assert !Bit(w, i);
        assert i >= z;
        AlignLeast(z + offset, align, i + offset);
        assert false;
      }
    }
  }

  lemma AlignedItself(x: nat, align: nat)
    requires align > 0
    ensures AlignUp(x, align) % align == 0
  {
    Multiple((x + align - 1) / align, align);
  }
}

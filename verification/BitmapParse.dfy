/** The hexadecimal bitmap parser: 32-bit chunks separated by commas, shifted in from the right. */
module BitmapParse {
  import opened Common
  import opened Arithmetic
  import opened Bitmap
  import opened BitmapShift

  const CHUNK: nat := 0x1_0000_0000

  // ---------- the bits of a number

  /** Bit `p` of the number `v`. */
  predicate NatBit(v: nat, p: nat) {
    if p == 0 then v % 2 == 1 else NatBit(v / 2, p - 1)
  }

  lemma {:induction false} NoNatBit(v: nat, p: nat)
    requires v < Pow2(p)
    ensures !NatBit(v, p)
  {
    if p > 0 {
      NoNatBit(v / 2, p - 1);
    }
  }

  /** Shifting `v` up by `k` bits and adding a smaller number puts their bits side by side. */
  lemma {:induction false} BitsSideBySide(v: nat, c: nat, k: nat, p: nat)
    requires c < Pow2(k)
    ensures NatBit(v * Pow2(k) + c, p) <==> if p < k then NatBit(c, p) else NatBit(v, p - k)
    decreases k
  {
    if k > 0 {
      var h := Pow2(k - 1);
      assert v * Pow2(k) == 2 * (v * h);
      assert (v * Pow2(k) + c) / 2 == v * h + c / 2;
      assert (v * Pow2(k) + c) % 2 == c % 2;
      if p > 0 {
        BitsSideBySide(v, c / 2, k - 1, p - 1);
      }
    } else {
      assert v * Pow2(0) + c == v;
    }
  }

  /** fls: the number of bits needed to hold `v`. */
  function Fls(v: nat): nat {
    if v == 0 then 0 else 1 + Fls(v / 2)
  }

  lemma {:induction false} FlsBounds(v: nat)
    requires v > 0
    ensures Fls(v) > 0 && Pow2(Fls(v) - 1) <= v < Pow2(Fls(v))
  {
    if v > 1 {
      FlsBounds(v / 2);
    } else {
      assert Fls(1) == 1 && Pow2(0) == 1 && Pow2(1) == 2;
    }
  }

  /** `v` needs exactly `n` bits. */
  ghost predicate Needs(v: nat, n: nat) { n > 0 && Pow2(n - 1) <= v < Pow2(n) }

  lemma NeedsExactly(v: nat, n: nat, bits: nat)
    requires Needs(v, n)
    ensures n <= bits <==> v < Pow2(bits)
  {
    if n <= bits {
      Pow2Monotone(n, bits);
    } else {
      Pow2Monotone(bits, n - 1);
    }
  }

  lemma ChunkIsPow2()
    ensures Pow2(32) == CHUNK
  {
    assert Pow2(8) == 256;
    Pow2Add(8, 8);
    Pow2Add(16, 16);
  }

  lemma NeedsMore(v: nat, n: nat, c: nat)
    requires Needs(v, n) && c < CHUNK
    ensures Needs(v * CHUNK + c, n + 32)
  {
    hide Pow2;
    ChunkIsPow2();
    Pow2Add(n - 1, 32);
    Pow2Add(n, 32);
    var lo, hi := Pow2(n - 1), Pow2(n);
    assert lo * CHUNK <= v * CHUNK;
    assert (v + 1) * CHUNK <= hi * CHUNK;
  }

  // ---------- the text

  predicate Space(c: char) { c == ' ' || '\t' <= c <= '\r' }

  function HexDigit(c: char): Option<nat> {
    if '0' <= c <= '9' then Some((c - '0') as nat)
    else if 'a' <= c <= 'f' then Some(10 + (c - 'a') as nat)
    else if 'A' <= c <= 'F' then Some(10 + (c - 'A') as nat)
    else None
  }

  const NUL: char := '\0'

  /** One chunk: its value, the digits read so far in all, the position behind it and the character that ended it. */
  datatype Read = Read(chunk: nat, total: nat, next: nat, last: char)

  function ReadChunk(text: seq<char>, i: nat, last: char, total: nat, chunk: nat): (r: Option<Read>)
    requires i <= |text| && chunk < CHUNK
    ensures r.Some? ==> i <= r.value.next <= |text| && total <= r.value.total && r.value.chunk < CHUNK
    ensures r.Some? && r.value.total > total ==> i < r.value.next
    decreases |text| - i
  {
    if i == |text| then Some(Read(chunk, total, i, last))
    else
      var c := text[i];
      if Space(c) then ReadChunk(text, i + 1, c, total, chunk)
      else if total > 0 && c != NUL && Space(last) then None
      else if c == NUL || c == ',' then Some(Read(chunk, total, i + 1, c))
      else if HexDigit(c).None? || chunk >= 0x1000_0000 then None
      else ReadChunk(text, i + 1, c, total + 1, chunk * 16 + HexDigit(c).value)
  }

  /** The number that the text from `i` on denotes behind the digits of `v`, if it is well formed. */
  function ReadNumber(text: seq<char>, i: nat, last: char, total: nat, v: nat): Option<nat>
    requires i <= |text|
    decreases |text| - i
  {
    var r := ReadChunk(text, i, last, total, 0);
    if r.None? || r.value.total == total then None
    else
      var x := r.value;
      if x.next < |text| && x.last == ',' then ReadNumber(text, x.next, x.last, x.total, v * CHUNK + x.chunk)
      else Some(v * CHUNK + x.chunk)
  }

  function Denoted(text: seq<char>): Option<nat> { ReadNumber(text, 0, NUL, 0, 0) }

  // ---------- the parser

  /** The bitmap of `lim` words holds the number `v`. */
  ghost predicate HoldsNumber(w: seq<Word>, lim: nat, v: nat) {
    forall p: nat | p < 64 * lim :: Bit(w, p) <==> NatBit(v, p)
  }

  /** A 32-bit number as a long. */
  function WordOf(v: nat): (r: Word)
    ensures forall b :: b in r <==> b < 64 && NatBit(v, b)
  {
    set b: nat | b < 64 && NatBit(v, b)
  }

  /** The inner loop of __bitmap_parse. */
  method ParseChunk(text: seq<char>, start: nat, last: char, total: nat) returns (r: Option<Read>)
    requires start <= |text|
    ensures r == ReadChunk(text, start, last, total, 0)
  {
    var i, c, digits, chunk := start, last, total, 0;
    while i < |text|
      invariant start <= i <= |text| && 0 <= chunk < CHUNK && digits >= 0
      invariant ReadChunk(text, start, last, total, 0) == ReadChunk(text, i, c, digits, chunk)
    {
      var old_c := c;
      c := text[i];
      i := i + 1;
      if Space(c) {
        continue;
      }
      if digits > 0 && c != NUL && Space(old_c) {
        return None;
      }
      if c == NUL || c == ',' {
        return Some(Read(chunk, digits, i, c));
      }
      if HexDigit(c).None? {
        return None;
      }
      if chunk >= 0x1000_0000 {
        return None;
      }
      chunk := chunk * 16 + HexDigit(c).value;
      digits := digits + 1;
    }
    r := Some(Read(chunk, digits, i, c));
  }

  /** One chunk is shifted in. */
  method ShiftIn(mask: array<Word>, bits: nat, chunk: nat, ghost v: nat)
    requires mask.Length == Longs(bits) > 0 && chunk < CHUNK && HoldsNumber(mask[..], Longs(bits), v)
    modifies mask
    ensures HoldsNumber(mask[..], Longs(bits), v * CHUNK + chunk)
  {
    hide NatBit, Bitmap.Bit;
    ghost var w := mask[..];
    ShiftLeft(mask, mask, 32, bits);
    ghost var u := mask[..];
    mask[0] := mask[0] + WordOf(chunk);
    forall p: nat | p < 64 * Longs(bits)
      ensures Bit(mask[..], p) <==> NatBit(v * CHUNK + chunk, p)
    {
      ShiftedIn(u, mask[..], chunk, p);
      ChunkIsPow2();
      BitsSideBySide(v, chunk, 32, p);
    }
  }

  lemma ShiftedIn(u: seq<Word>, w: seq<Word>, chunk: nat, p: nat)
    requires |u| > 0 && w == u[0 := u[0] + WordOf(chunk)] && chunk < CHUNK
    ensures Bit(w, p) <==> Bit(u, p) || (p < 32 && NatBit(chunk, p))
  {
    hide NatBit, Pow2, WordOf;
    ChunkIsPow2();
    if p >= 32 {
      Pow2Monotone(32, p);
      NoNatBit(chunk, p);
    }
  }

  /** __bitmap_parse: it succeeds exactly when the text is well formed and its number fits the bitmap, and then the
      bitmap holds that number. */
  method Parse(text: seq<char>, mask: array<Word>, bits: nat) returns (ok: bool)
    requires bits > 0 && mask.Length == Longs(bits)
    modifies mask
    ensures var d := Denoted(text);
      && (ok <==> d.Some? && d.value < Pow2(bits))
      && (ok ==> HoldsNumber(mask[..], Longs(bits), d.value))
  {
    hide Fls, Pow2, ReadChunk, HoldsNumber, Needs;
    Zero(mask, bits);
    HoldsZero(mask[..], Longs(bits));
    var i: nat, c, total: nat, chunks: nat, nbits: nat := 0, NUL, 0, 0, 0;
    ghost var v: nat := 0;
    while true
      invariant i <= |text|
      invariant Denoted(text) == ReadNumber(text, i, c, total, v)
      invariant HoldsNumber(mask[..], Longs(bits), v) && v < Pow2(bits)
      invariant (chunks == 0 ==> nbits == 0) && (chunks == 0 <==> v == 0) && (chunks > 0 ==> Needs(v, nbits))
      decreases |text| - i
    {
      var r := ParseChunk(text, i, c, total);
      if r.None? || r.value.total == total {
        return false;
      }
      var chunk := r.value.chunk;
      i, c, total := r.value.next, r.value.last, r.value.total;
      if chunks != 0 || chunk != 0 {
        ShiftIn(mask, bits, chunk, v);
        NeedsNext(v, nbits, chunk);
        chunks := chunks + 1;
        nbits := nbits + if chunks == 1 then Fls(chunk) else 32;
        NeedsExactly(v * CHUNK + chunk, nbits, bits);
        NumberGrows(text, i, c, total, v * CHUNK + chunk);
        if nbits > bits {
          return false;
        }
      }
      v := v * CHUNK + chunk;
      if !(i < |text| && c == ',') {
        break;
      }
    }
    ok := true;
  }

  lemma HoldsZero(w: seq<Word>, lim: nat)
    requires forall p: nat :: !Bit(w, p)
    ensures HoldsNumber(w, lim, 0)
    ensures forall n :: 0 < Pow2(n)
  {
    forall p: nat
      ensures !NatBit(0, p)
    {
      NoNatBit(0, p);
    }
  }

  /** How many bits the number needs with one more chunk. */
  lemma NeedsNext(v: nat, n: nat, c: nat)
    requires c < CHUNK && (v == 0 ==> c > 0) && (v > 0 ==> Needs(v, n))
    ensures Needs(v * CHUNK + c, if v == 0 then Fls(c) else n + 32)
  {
    if v == 0 {
      FlsBounds(c);
    } else {
      NeedsMore(v, n, c);
    }
  }

  lemma {:induction false} NumberGrows(text: seq<char>, i: nat, last: char, total: nat, v: nat)
    requires i <= |text|
    ensures var d := ReadNumber(text, i, last, total, v); d.Some? ==> d.value >= v
    decreases |text| - i
  {
    hide ReadChunk;
    var r := ReadChunk(text, i, last, total, 0);
    if r.Some? && r.value.total > total && r.value.next < |text| && r.value.last == ',' {
      NumberGrows(text, r.value.next, r.value.last, r.value.total, v * CHUNK + r.value.chunk);
    }
  }
}

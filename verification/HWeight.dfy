/** The software Hamming weight: sums of neighbouring bit fields inside one word. */
module HWeight {
  import opened Arithmetic
  import opened Bitmap
  import opened BitmapParse

  /** Bitwise and. */
  function And(a: nat, b: nat): nat
    decreases a
  {
    if a == 0 then 0 else 2 * And(a / 2, b / 2) + (a % 2) * (b % 2)
  }

  /** The number of one bits. */
  function Count(w: nat): nat {
    if w == 0 then 0 else w % 2 + Count(w / 2)
  }

  // ---------- and, field by field

  lemma And2(x: nat, a: nat, y: nat, b: nat)
    requires a < 2 && b < 2
    ensures And(2 * x + a, 2 * y + b) == 2 * And(x, y) + a * b
  {
    if 2 * x + a > 0 {
      assert (2 * x + a) / 2 == x && (2 * y + b) / 2 == y;
    }
  }

  lemma And4(x: nat, a: nat, y: nat, b: nat)
    requires a < 4 && b < 4
    ensures And(4 * x + a, 4 * y + b) == 4 * And(x, y) + And(a, b)
  {
    hide And;
    And2(2 * x + a / 2, a % 2, 2 * y + b / 2, b % 2);
    And2(x, a / 2, y, b / 2);
    And2(0, a / 2, 0, b / 2);
    And2(a / 2, a % 2, b / 2, b % 2);
    AndZero();
  }

  lemma AndZero()
    ensures forall b :: And(0, b) == 0
  {
  }

  lemma And16(x: nat, a: nat, y: nat, b: nat)
    requires a < 16 && b < 16
    ensures And(16 * x + a, 16 * y + b) == 16 * And(x, y) + And(a, b)
  {
    hide And;
    And4(4 * x + a / 4, a % 4, 4 * y + b / 4, b % 4);
    And4(x, a / 4, y, b / 4);
    And4(0, a / 4, 0, b / 4);
    And4(a / 4, a % 4, b / 4, b % 4);
    AndZero();
  }

  lemma And256(x: nat, a: nat, y: nat, b: nat)
    requires a < 256 && b < 256
    ensures And(256 * x + a, 256 * y + b) == 256 * And(x, y) + And(a, b)
  {
    hide And;
    And16(16 * x + a / 16, a % 16, 16 * y + b / 16, b % 16);
    And16(x, a / 16, y, b / 16);
    And16(0, a / 16, 0, b / 16);
    And16(a / 16, a % 16, b / 16, b % 16);
    AndZero();
  }

  /** And with a mask of low ones is a remainder. */
  lemma AndOne(x: nat)
    ensures And(x, 1) == x % 2
  {
    hide And;
    AndNone(x / 2);
    And2(x / 2, x % 2, 0, 1);
  }

  lemma AndThree(x: nat)
    ensures And(x, 3) == x % 4
  {
    hide And;
    var a := x % 4;
    AndNone(x / 4);
    And4(x / 4, a, 0, 3);
    And2(a / 2, a % 2, 1, 1);
    AndOne(a / 2);
  }

  lemma AndFifteen(x: nat)
    ensures And(x, 15) == x % 16
  {
    hide And;
    var a := x % 16;
    AndNone(x / 16);
    And16(x / 16, a, 0, 15);
    And4(a / 4, a % 4, 3, 3);
    AndThree(a / 4);
    AndThree(a % 4);
  }

  lemma {:induction false} AndNone(x: nat)
    ensures And(x, 0) == 0
  {
    if x > 0 {
      AndNone(x / 2);
    }
  }

  // ---------- the masks

  /** `n` fields in base `base`, each holding `m`. */
  function Fields(base: nat, m: nat, n: nat): nat {
    if n == 0 then 0 else base * Fields(base, m, n - 1) + m
  }

  // ---------- the sums that the words hold after each step

  /** Two-bit fields, each with the weight of two bits of `w`. */
  function Pairs(w: nat, n: nat): nat
    decreases n
  {
    if n == 0 then 0 else 4 * Pairs(w / 4, n - 1) + (w % 2 + w / 2 % 2)
  }

  /** Four-bit fields, each with the weight of four bits. */
  function Nibbles(w: nat, n: nat): nat
    decreases n
  {
    if n == 0 then 0 else 16 * Nibbles(w / 16, n - 1) + Four(w)
  }

  function Four(w: nat): (r: nat)
    ensures r <= 4
  {
    w % 2 + w / 2 % 2 + w / 4 % 2 + w / 8 % 2
  }

  /** Bytes, each with the weight of eight bits. */
  function Bytes(w: nat, n: nat): nat
    decreases n
  {
    if n == 0 then 0 else 256 * Bytes(w / 256, n - 1) + (Four(w) + Four(w / 16))
  }

  function Power(base: nat, n: nat): nat { if n == 0 then 1 else base * Power(base, n - 1) }

  lemma Unfold(w: nat, n: nat)
    requires n > 0
    ensures Pairs(w, n) == 4 * Pairs(w / 4, n - 1) + (w % 2 + w / 2 % 2)
    ensures Nibbles(w, n) == 16 * Nibbles(w / 16, n - 1) + Four(w)
    ensures Bytes(w, n) == 256 * Bytes(w / 256, n - 1) + (Four(w) + Four(w / 16))
  {
  }

  lemma UnfoldMask(base: nat, m: nat, n: nat)
    requires n > 0
    ensures Fields(base, m, n) == base * Fields(base, m, n - 1) + m && Power(base, n) == base * Power(base, n - 1)
  {
  }

  lemma UnfoldNothing(base: nat, m: nat, w: nat)
    ensures Fields(base, m, 0) == 0 && Power(base, 0) == 1
    ensures Pairs(w, 0) == Nibbles(w, 0) == Bytes(w, 0) == 0
  {
  }

  /** w - ((w >> 1) & 0x5555...) */
  lemma {:induction false} PairStep(w: nat, n: nat)
    requires w < Power(4, n)
    ensures And(w / 2, Fields(4, 1, n)) <= w && w - And(w / 2, Fields(4, 1, n)) == Pairs(w, n)
    decreases n
  {
    hide And, Power, Fields, Pairs, Nibbles, Bytes, Four;
    if n == 0 {
      UnfoldNothing(4, 1, w);
      AndNone(w / 2);
    } else {
      UnfoldMask(4, 1, n);
      Unfold(w, n);
      LowTwo(w, Power(4, n - 1));
      PairStep(w / 4, n - 1);
      PairField(w / 4, w % 4, Fields(4, 1, n - 1), Pairs(w / 4, n - 1));
    }
  }

  lemma LowTwo(w: nat, p: nat)
    ensures 4 * (w / 4) + w % 4 == w && w % 4 % 2 == w % 2 && w % 4 / 2 == w / 2 % 2
    ensures w < 4 * p ==> w / 4 < p
  {
    var h, l := w / 4, w % 4;
    assert w == 4 * h + l;
    if l < 2 {
      assert w / 2 == 2 * h;
    } else {
      assert w / 2 == 2 * h + 1;
    }
  }

  lemma PairField(h: nat, l: nat, m: nat, p: nat)
    requires l < 4 && And(h / 2, m) <= h && h - And(h / 2, m) == p
    ensures var w := 4 * h + l; And(w / 2, 4 * m + 1) <= w && w - And(w / 2, 4 * m + 1) == 4 * p + l % 2 + l / 2
  {
    hide And;
    var a := 2 * (h % 2) + l / 2;
    assert (4 * h + l) / 2 == 4 * (h / 2) + a;
    And4(h / 2, a, m, 1);
    AndOne(a);
  }

  /** (r & 0x3333...) + ((r >> 2) & 0x3333...) */
  lemma {:induction false} NibbleStep(w: nat, n: nat)
    ensures var r, m := Pairs(w, 2 * n), Fields(16, 3, n); And(r, m) + And(r / 4, m) == Nibbles(w, n)
    decreases n
  {
    hide And, Power, Fields, Pairs, Nibbles, Bytes;
    if n == 0 {
      UnfoldNothing(16, 3, w);
      AndNone(0);
    } else {
      UnfoldMask(16, 3, n);
      Unfold(w, n);
      PairTwice(w, n);
      NibbleStep(w / 16, n - 1);
      NibbleField(Pairs(w / 16, 2 * (n - 1)), w / 4 % 2 + w / 8 % 2, w % 2 + w / 2 % 2, Fields(16, 3, n - 1));
    }
  }

  lemma NibbleField(h: nat, y: nat, x: nat, m: nat)
    requires x <= 2 && y <= 2
    ensures var r := 16 * h + 4 * y + x;
      And(r, 16 * m + 3) + And(r / 4, 16 * m + 3) == 16 * (And(h, m) + And(h / 4, m)) + (x + y)
  {
    hide And;
    And16(h, 4 * y + x, m, 3);
    AndThree(4 * y + x);
    var a := 4 * (h % 4) + y;
    assert (16 * h + 4 * y + x) / 4 == 16 * (h / 4) + a;
    And16(h / 4, a, m, 3);
    AndThree(a);
  }

  lemma Quotients(w: nat)
    ensures w / 16 / 16 == w / 256 && w / 4 / 4 == w / 16 && w / 4 / 2 == w / 8
  {
  }

  lemma PairTwice(w: nat, n: nat)
    requires n > 0
    ensures Pairs(w, 2 * n) == 16 * Pairs(w / 16, 2 * (n - 1)) + 4 * (w / 4 % 2 + w / 8 % 2) + (w % 2 + w / 2 % 2)
  {
    hide And, Power, Fields, Pairs, Nibbles, Bytes, Four;
    PairNext(w, 2 * n, 2 * (n - 1));
    Quotients(w);
  }

  lemma PairNext(w: nat, n: nat, m: nat)
    requires n == m + 2
    ensures Pairs(w, n) == 16 * Pairs(w / 4 / 4, m) + 4 * (w / 4 % 2 + w / 4 / 2 % 2) + (w % 2 + w / 2 % 2)
  {
    hide And, Power, Fields, Pairs, Nibbles, Bytes, Four;
    Unfold(w, n);
    Unfold(w / 4, n - 1);
  }

  /** (r + (r >> 4)) & 0x0F0F... */
  lemma {:induction false} ByteStep(w: nat, n: nat)
    ensures var r := Nibbles(w, 2 * n); And(r + r / 16, Fields(256, 15, n)) == Bytes(w, n)
    decreases n
  {
    hide And, Power, Fields, Pairs, Nibbles, Bytes, Four;
    if n == 0 {
      UnfoldNothing(256, 15, w);
      AndNone(0);
    } else {
      UnfoldMask(256, 15, n);
      Unfold(w, n);
      NibbleTwice(w, n);
      ByteStep(w / 256, n - 1);
      LowNibble(w / 256, 2 * (n - 1));
      ByteField(Nibbles(w / 256, 2 * (n - 1)), Four(w / 16), Four(w), Fields(256, 15, n - 1));
    }
  }

  lemma ByteField(h: nat, y: nat, x: nat, m: nat)
    requires x <= 4 && y <= 4 && h % 16 <= 4
    ensures var r := 256 * h + 16 * y + x; And(r + r / 16, 256 * m + 15) == 256 * And(h + h / 16, m) + (x + y)
  {
    hide And;
    var c := h % 16 + y;
    var a := 16 * c + (x + y);
    assert (256 * h + 16 * y + x) / 16 == 16 * h + y;
    assert 17 * (16 * h + y) + x == 256 * (h + h / 16) + a;
    And256(h + h / 16, a, m, 15);
    AndFifteen(a);
  }

  lemma NibbleTwice(w: nat, n: nat)
    requires n > 0
    ensures Nibbles(w, 2 * n) == 256 * Nibbles(w / 256, 2 * (n - 1)) + 16 * Four(w / 16) + Four(w)
  {
    hide And, Power, Fields, Pairs, Nibbles, Bytes, Four;
    NibbleNext(w, 2 * n, 2 * (n - 1));
    Quotients(w);
  }

  lemma NibbleNext(w: nat, n: nat, m: nat)
    requires n == m + 2
    ensures Nibbles(w, n) == 256 * Nibbles(w / 16 / 16, m) + 16 * Four(w / 16) + Four(w)
  {
    hide And, Power, Fields, Pairs, Nibbles, Bytes, Four;
    Unfold(w, n);
    Unfold(w / 16, n - 1);
  }

  lemma LowNibble(w: nat, n: nat)
    ensures Nibbles(w, n) % 16 <= 4
  {
    hide And, Power, Fields, Pairs, Nibbles, Bytes, Four;
    if n > 0 {
      Unfold(w, n);
    } else {
      UnfoldNothing(16, 0, w);
    }
  }

  /** No field is full, so adding neighbours does not overflow the word. */
  lemma {:induction false} NibblesBound(w: nat, n: nat)
    ensures 15 * Nibbles(w, n) <= 4 * (Power(16, n) - 1)
    decreases n
  {
    hide Four, Nibbles, Power, Pairs, Bytes, Fields;
    if n == 0 {
      UnfoldNothing(16, 0, w);
    } else {
      Unfold(w, n);
      UnfoldMask(16, 0, n);
      NibblesBound(w / 16, n - 1);
    }
  }

  // ---------- the last sums

  lemma CountFour(w: nat)
    ensures Count(w) == Four(w) + Count(w / 16)
  {
    hide Count;
    CountBit(w);
    CountBit(w / 2);
    CountBit(w / 4);
    CountBit(w / 8);
  }

  lemma CountBit(w: nat)
    ensures Count(w) == w % 2 + Count(w / 2)
  {
  }

  lemma CountByte(w: nat)
    ensures Count(w) == Four(w) + Four(w / 16) + Count(w / 256)
  {
    hide Count, Four;
    CountFour(w);
    CountFour(w / 16);
    Quotients(w);
  }

  /** The lowest byte of the sums. */
  lemma LowByte(w: nat, n: nat) returns (b: nat)
    requires n > 0 && w < Power(256, n)
    ensures b <= 8 && Bytes(w, n) == 256 * Bytes(w / 256, n - 1) + b
    ensures Count(w) == b + Count(w / 256) && w / 256 < Power(256, n - 1)
  {
    hide Four, Nibbles, Power, Pairs, Bytes, Fields, Count;
    b := Four(w) + Four(w / 16);
    Unfold(w, n);
    UnfoldMask(256, 0, n);
    CountByte(w);
  }

  lemma NothingLeft(w: nat)
    requires w < Power(256, 0)
    ensures Bytes(w, 0) == 0 && Count(w) == 0
  {
  }

  /** res + (res >> 8), then (res + (res >> 16)) & 0xff */
  function Fold32(r: nat): nat {
    var s := (r + r / 256) % WORD32;
    (s + s / 65536) % WORD32 % 256
  }

  lemma FourBytes(a: nat, b: nat, c: nat, d: nat)
    requires a <= 8 && b <= 8 && c <= 8 && d <= 8
    ensures Fold32(a + 256 * b + 65536 * c + 0x100_0000 * d) == a + b + c + d
  {
    hide Fold32;
    var r := a + 256 * b + 65536 * c + 0x100_0000 * d;
    FirstShift(r, b + 256 * c + 65536 * d, 0, a);
    var s := r + r / 256;
    SecondShift(s, c + d + 256 * d, 0, (a + b) + 256 * (b + c));
    LastByte(s + s / 65536, b + c + d + 256 * (c + d) + 65536 * d, a + b + c + d);
    NoWrap32(r);
  }

  /** res + (res >> 8), then res + (res >> 16), then (res + (res >> 32)) & 0xff */
  function Fold64(r: nat): nat { AddHigh(AddHigh(AddHigh(r, 256), 65536), WORD32) % 256 }

  /** A word plus itself shifted right. */
  function AddHigh(r: nat, k: nat): nat
    requires k > 0
  {
    (r + r / k) % WORD64
  }

  lemma AddHighSmall(r: nat, k: nat)
    requires k > 0 && r + r / k < WORD64
    ensures AddHigh(r, k) == r + r / k
  {
  }

  /** Four sums of two neighbouring bytes in each half are sums of two numbers of two bytes. */
  lemma EightBytes(x: nat, y: nat, a: nat, b: nat, c: nat, d: nat, e: nat, f: nat, g: nat, h: nat)
    requires a <= 8 && b <= 8 && c <= 8 && d <= 8 && e <= 8 && f <= 8 && g <= 8 && h <= 8
    requires x == a + 256 * b + 65536 * c + 0x100_0000 * d && y == e + 256 * f + 65536 * g + 0x100_0000 * h
    ensures Fold64(x + WORD32 * y) == a + b + c + d + e + f + g + h
  {
    hide Fold64;
    var r := x + WORD32 * y;
    var x1, y1 := b + 256 * c + 65536 * d + 0x100_0000 * e, f + 256 * g + 65536 * h;
    FirstShift(r, x1, y1, a);
    SecondFold(x + x1, y + y1, a + b, b + c, c + d, d + e, e + f, f + g, g + h, h);
    assert r + r / 256 == (x + x1) + WORD32 * (y + y1);
    NoWrap64(r);
  }

  lemma LastByte(x: nat, q: nat, a: nat)
    requires a < 256 && x == 256 * q + a
    ensures x % 256 == a
  {
  }

  lemma FirstShift(r: nat, x: nat, y: nat, a: nat)
    requires a < 256 && r == 256 * (x + WORD32 * y) + a
    ensures r / 256 == x + WORD32 * y
  {
  }

  lemma SecondShift(s: nat, x: nat, y: nat, a: nat)
    requires a < 65536 && s == 65536 * (x + WORD32 * y) + a
    ensures s / 65536 == x + WORD32 * y
  {
  }

  lemma NoWrap64(r: nat)
    requires var s := r + r / 256; var t := s + s / 65536; s < WORD64 && t < WORD64 && t + t / WORD32 < WORD64
    ensures var s := r + r / 256; var t := s + s / 65536; Fold64(r) == (t + t / WORD32) % 256
  {
    hide AddHigh;
    var s := r + r / 256;
    var t := s + s / 65536;
    AddHighSmall(r, 256);
    AddHighSmall(s, 65536);
    AddHighSmall(t, WORD32);
  }

  lemma NoWrap32(r: nat)
    requires var s := r + r / 256; s < WORD32 && s + s / 65536 < WORD32
    ensures var s := r + r / 256; Fold32(r) == (s + s / 65536) % 256
  {
    var s := r + r / 256;
    Small(s, WORD32);
    Small(s + s / 65536, WORD32);
  }

  lemma SecondFold(x: nat, y: nat, a: nat, b: nat, c: nat, d: nat, e: nat, f: nat, g: nat, h: nat)
    requires a <= 16 && b <= 16 && c <= 16 && d <= 16 && e <= 16 && f <= 16 && g <= 16 && h <= 16
    requires x == a + 256 * b + 65536 * c + 0x100_0000 * d && y == e + 256 * f + 65536 * g + 0x100_0000 * h
    ensures var s := x + WORD32 * y; var t := s + s / 65536;
      s < WORD64 && t < WORD64 && t + t / WORD32 < WORD64 && (t + t / WORD32) % 256 == a + c + e + g
  {
    var x3, y3 := SecondSum(x, y, a, b, c, d, e, f, g, h);
    SecondEnd(x + WORD32 * y, x3, y3, a + c, b + d, c + e, d + f, e + g, f + h, g, h);
  }

  lemma SecondSum(x: nat, y: nat, a: nat, b: nat, c: nat, d: nat, e: nat, f: nat, g: nat, h: nat)
    returns (x3: nat, y3: nat)
    requires a <= 16 && b <= 16 && c <= 16 && d <= 16 && e <= 16 && f <= 16 && g <= 16 && h <= 16
    requires x == a + 256 * b + 65536 * c + 0x100_0000 * d && y == e + 256 * f + 65536 * g + 0x100_0000 * h
    ensures var s := x + WORD32 * y; s < WORD64 && s + s / 65536 == x3 + WORD32 * y3
    ensures x3 == (a + c) + 256 * (b + d) + 65536 * (c + e) + 0x100_0000 * (d + f)
    ensures y3 == (e + g) + 256 * (f + h) + 65536 * g + 0x100_0000 * h
  {
    var x2, y2 := c + 256 * d + 65536 * e + 0x100_0000 * f, g + 256 * h;
    x3, y3 := x + x2, y + y2;
    SecondParts(x, y, a, b, c, d, e, f, g, h);
    SecondShift(x + WORD32 * y, x2, y2, a + 256 * b);
  }

  lemma SecondEnd(
    s: nat, x: nat, y: nat, a: nat, b: nat, c: nat, d: nat, e: nat, f: nat, g: nat, h: nat)
    requires a <= 32 && b <= 32 && c <= 32 && d <= 32 && e <= 32 && f <= 32 && g <= 32 && h <= 32
    requires x == a + 256 * b + 65536 * c + 0x100_0000 * d && y == e + 256 * f + 65536 * g + 0x100_0000 * h
    requires s + s / 65536 == x + WORD32 * y
    ensures var t := s + s / 65536; t < WORD64 && t + t / WORD32 < WORD64 && (t + t / WORD32) % 256 == a + e
  {
    ThirdFold(x, y, a, b, c, d, e, f, g, h);
  }

  lemma SecondParts(x: nat, y: nat, a: nat, b: nat, c: nat, d: nat, e: nat, f: nat, g: nat, h: nat)
    requires a <= 16 && b <= 16 && c <= 16 && d <= 16 && e <= 16 && f <= 16 && g <= 16 && h <= 16
    requires x == a + 256 * b + 65536 * c + 0x100_0000 * d && y == e + 256 * f + 65536 * g + 0x100_0000 * h
    ensures var x2, y2 := c + 256 * d + 65536 * e + 0x100_0000 * f, g + 256 * h; var s := x + WORD32 * y;
      && s == 65536 * (x2 + WORD32 * y2) + (a + 256 * b) && s < WORD64
      && s + (x2 + WORD32 * y2) == (x + x2) + WORD32 * (y + y2)
      && x + x2 == (a + c) + 256 * (b + d) + 65536 * (c + e) + 0x100_0000 * (d + f)
      && y + y2 == (e + g) + 256 * (f + h) + 65536 * g + 0x100_0000 * h
  {
  }

  lemma ThirdFold(x: nat, y: nat, a: nat, b: nat, c: nat, d: nat, e: nat, f: nat, g: nat, h: nat)
    requires a <= 32 && b <= 32 && c <= 32 && d <= 32 && e <= 32 && f <= 32 && g <= 32 && h <= 32
    requires x == a + 256 * b + 65536 * c + 0x100_0000 * d && y == e + 256 * f + 65536 * g + 0x100_0000 * h
    ensures var t := x + WORD32 * y; t < WORD64 && t + t / WORD32 < WORD64 && (t + t / WORD32) % 256 == a + e
  {
    var t := x + WORD32 * y;
    assert t / WORD32 == y;
    LastByte(t + y, b + 256 * c + 65536 * d + 0x100_0000 * y + f + 256 * g + 65536 * h, a + e);
  }

  // ---------- the three stages, for a word of `n` bytes

  const WORD32: nat := 0x1_0000_0000
  const WORD64: nat := 0x1_0000_0000_0000_0000

  /** w - ((w >> 1) & mask), in a word of the given size. */
  function Stage1(w: nat, mask: nat, word: nat): nat
    requires word > 0
  {
    (w - And(w / 2, mask)) % word
  }

  /** (w & mask) + ((w >> 2) & mask) */
  function Stage2(w: nat, mask: nat, word: nat): nat
    requires word > 0
  {
    (And(w, mask) + And(w / 4, mask)) % word
  }

  /** (w + (w >> 4)) & mask */
  function Stage3(w: nat, mask: nat, word: nat): nat
    requires word > 0
  {
    And((w + w / 16) % word, mask)
  }

  lemma Small(x: nat, m: nat)
    requires x < m
    ensures x % m == x
  {
  }

  lemma Stages(w: nat, n: nat, word: nat)
    requires w < word == Power(4, 4 * n) == Power(16, 2 * n)
    ensures Stage1(w, Fields(4, 1, 4 * n), word) == Pairs(w, 4 * n)
    ensures Stage2(Pairs(w, 4 * n), Fields(16, 3, 2 * n), word) == Nibbles(w, 2 * n)
    ensures Stage3(Nibbles(w, 2 * n), Fields(256, 15, n), word) == Bytes(w, n)
  {
    hide And, Four, Nibbles, Power, Pairs, Bytes, Fields;
    PairStep(w, 4 * n);
    Small(Pairs(w, 4 * n), word);
    assert 2 * (2 * n) == 4 * n;
    NibbleStep(w, 2 * n);
    NibblesBound(w, 2 * n);
    var s := Nibbles(w, 2 * n);
    Small(s, word);
    ByteStep(w, n);
    Small(s + s / 16, word);
  }

  // ---------- 32 and 64 bits

  /** __sw_hweight32 */
  function Hweight32(w: nat): nat {
    var r := Stage3(Stage2(Stage1(w, 0x5555_5555, WORD32), 0x3333_3333, WORD32), 0x0f0f_0f0f, WORD32);
    Fold32(r)
  }

  /** __sw_hweight64 */
  function Hweight64(w: nat): nat {
    var r := Stage3(Stage2(Stage1(w, 0x5555_5555_5555_5555, WORD64), 0x3333_3333_3333_3333, WORD64),
      0x0f0f_0f0f_0f0f_0f0f, WORD64);
    Fold64(r)
  }

  lemma Masks32()
    ensures Fields(4, 1, 16) == 0x5555_5555 && Fields(16, 3, 8) == 0x3333_3333 && Fields(256, 15, 4) == 0x0f0f_0f0f
    ensures Power(4, 16) == Power(16, 8) == Power(256, 4) == WORD32
  {
    assert Fields(4, 1, 4) == 0x55 && Fields(4, 1, 8) == 0x5555 && Fields(4, 1, 12) == 0x55_5555;
    assert Fields(16, 3, 4) == 0x3333;
    assert Power(4, 8) == 0x1_0000 && Power(16, 4) == 0x1_0000;
  }

  lemma Masks64()
    ensures Fields(4, 1, 32) == 0x5555_5555_5555_5555 && Fields(16, 3, 16) == 0x3333_3333_3333_3333
    ensures Fields(256, 15, 8) == 0x0f0f_0f0f_0f0f_0f0f
    ensures Power(4, 32) == Power(16, 16) == Power(256, 8) == WORD64
  {
    Masks32();
    assert Fields(4, 1, 20) == 0x55_5555_5555 && Fields(4, 1, 24) == 0x5555_5555_5555
      && Fields(4, 1, 28) == 0x55_5555_5555_5555;
    assert Fields(16, 3, 12) == 0x3333_3333_3333;
    assert Power(4, 24) == 0x1_0000_0000_0000 && Power(16, 12) == 0x1_0000_0000_0000;
  }

  /** The lowest four bytes of the sums. */
  lemma LowFour(w: nat, n: nat) returns (a: nat, b: nat, c: nat, d: nat)
    requires n >= 4 && w < Power(256, n)
    ensures a <= 8 && b <= 8 && c <= 8 && d <= 8 && w / WORD32 < Power(256, n - 4)
    ensures Bytes(w, n) == WORD32 * Bytes(w / WORD32, n - 4) + (a + 256 * b + 65536 * c + 0x100_0000 * d)
    ensures Count(w) == a + b + c + d + Count(w / WORD32)
  {
    hide Four, Nibbles, Power, Pairs, Bytes, Fields, Count;
    a := LowByte(w, n);
    b := LowByte(w / 256, n - 1);
    c := LowByte(w / 256 / 256, n - 2);
    d := LowByte(w / 256 / 256 / 256, n - 3);
    FourQuotients(w);
  }

  lemma FourQuotients(w: nat)
    ensures w / 256 / 256 / 256 / 256 == w / WORD32
  {
  }

  /** The 32-bit weight is the number of one bits, for every word. */
  lemma Weight32(w: nat)
    requires w < WORD32
    ensures Hweight32(w) == Count(w)
  {
    hide And, Four, Nibbles, Power, Pairs, Bytes, Fields, Count, Stage1, Stage2, Stage3, Fold32;
    Masks32();
    Stages(w, 4, WORD32);
    var a, b, c, d := LowFour(w, 4);
    NothingLeft(w / WORD32);
    FourBytes(a, b, c, d);
  }

  /** The 64-bit weight is the number of one bits, for every word. */
  lemma Weight64(w: nat)
    requires w < WORD64
    ensures Hweight64(w) == Count(w)
  {
    hide And, Four, Nibbles, Power, Pairs, Bytes, Fields, Count, Stage1, Stage2, Stage3, Fold64;
    Masks64();
    Stages(w, 8, WORD64);
    var a, b, c, d := LowFour(w, 8);
    var e, f, g, h := LowFour(w / WORD32, 4);
    NothingLeft(w / WORD32 / WORD32);
    EightBytes(a + 256 * b + 65536 * c + 0x100_0000 * d, e + 256 * f + 65536 * g + 0x100_0000 * h, a, b, c, d, e, f,
      g, h);
  }

  // ---------- the weight of a long as a set of bits

  function OneIf(b: bool): nat { if b then 1 else 0 }

  /** The number of one bits of `v` below `n`. */
  function CountBelow(v: nat, n: nat): nat {
    if n == 0 then 0 else CountBelow(v, n - 1) + OneIf(NatBit(v, n - 1))
  }

  lemma {:induction false} CountBelowHalf(v: nat, n: nat)
    ensures CountBelow(v, n + 1) == v % 2 + CountBelow(v / 2, n)
  {
    if n == 0 {
      assert CountBelow(v, 1) == CountBelow(v, 0) + OneIf(NatBit(v, 0));
    } else {
      CountBelowHalf(v, n - 1);
      assert NatBit(v, n) == NatBit(v / 2, n - 1);
      hide NatBit;
    }
  }

  lemma {:induction false} CountBelowAll(v: nat, n: nat)
    requires v < Pow2(n)
    ensures CountBelow(v, n) == Count(v)
    decreases n
  {
    if n > 0 {
      CountBelowHalf(v, n - 1);
      CountBelowAll(v / 2, n - 1);
      CountBit(v);
    }
  }

  lemma {:induction false} MaskedCount(v: nat, n: nat)
    requires n <= 64
    ensures |WordOf(v) * Mask(0, n)| == CountBelow(v, n)
    decreases n
  {
    var x := WordOf(v);
    hide WordOf, Mask, NatBit;
    if n == 0 {
      assert x * Mask(0, 0) == {};
    } else {
      MaskedCount(v, n - 1);
      var s, t := x * Mask(0, n - 1), x * Mask(0, n);
      assert t == if n - 1 in x then s + {n - 1} else s;
    }
  }

  /** The size of the set that stands for a long is its Hamming weight as the code computes it. */
  lemma WordWeight(v: nat)
    requires v < WORD64
    ensures |WordOf(v)| == Hweight64(v)
  {
    hide Hweight64, CountBelow, Count, NatBit;
    MaskedCount(v, 64);
    assert WordOf(v) * Mask(0, 64) == WordOf(v);
    ChunkIsPow2();
    Pow2Add(32, 32);
    CountBelowAll(v, 64);
    Weight64(v);
  }
}

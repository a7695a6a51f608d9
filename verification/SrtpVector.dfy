/** The initial vectors and counter blocks of SRTP as 128-bit numbers (section 4.1.1 of RFC 3711). */
module SrtpVector {
  import opened Common
  import opened Arithmetic
  import opened Srtp

  const TWO16: nat := 0x1_0000
  const TWO32: nat := 0x1_0000_0000
  const TWO48: nat := 0x1_0000_0000_0000
  const TWO64: nat := 0x1_0000_0000_0000_0000

  // ---------- byte strings as numbers

  /** The number whose big-endian digits are the bytes. */
  function Num(s: seq<byte>): nat {
    if s == [] then 0 else 256 * Num(s[..|s| - 1]) + s[|s| - 1]
  }

  lemma {:induction false} NumAppend(a: seq<byte>, b: seq<byte>)
    ensures Num(a + b) == Num(a) * Pow256(|b|) + Num(b)
    decreases |b|
  {
    if b == [] {
      assert a + b == a;
    } else {
      var n := |b| - 1;
      NumAppend(a, b[..n]);
      NumLast(a + b[..n], b[n]);
      NumLast(b[..n], b[n]);
      assert a + b == a + b[..n] + [b[n]] && b == b[..n] + [b[n]];
      Scale(Num(a), Pow256(n));
    }
  }

  lemma NumLast(a: seq<byte>, b: byte)
    ensures Num(a + [b]) == 256 * Num(a) + b
  {
    assert (a + [b])[..|a|] == a;
  }

  lemma Scale(x: nat, p: nat)
    ensures 256 * (x * p) == x * (256 * p)
  {
  }

  function Zeros(n: nat): seq<byte> { seq(n, _ => 0) }

  lemma {:induction false} NumZeros(n: nat)
    ensures Num(Zeros(n)) == 0
  {
    if n > 0 {
      NumZeros(n - 1);
      assert Zeros(n)[..n - 1] == Zeros(n - 1);
    }
  }

  lemma {:induction false} NumBigEndian(x: nat, n: nat)
    requires x < Pow256(n)
    ensures Num(BigEndian(x, n)) == x
  {
    if n > 0 {
      NumBigEndian(x / 256, n - 1);
      NumLast(BigEndian(x / 256, n - 1), x % 256);
    }
  }

  // ---------- exclusive or of numbers and of byte strings

  function Times(p: nat, x: nat): nat { p * x }

  lemma TimesTwice(p: nat, x: nat)
    ensures Times(2 * p, x) == 2 * Times(p, x) && Times(1, x) == x
  {
  }

  /** Numbers in two parts are combined part by part. */
  lemma {:induction false} XorShift(x: nat, y: nat, n: nat, a: nat, b: nat)
    requires a < Pow2(n) && b < Pow2(n)
    ensures Xor(Times(Pow2(n), x) + a, Times(Pow2(n), y) + b) == Times(Pow2(n), Xor(x, y)) + Xor(a, b)
    decreases n
  {
    hide Times;
    if n == 0 {
      assert Pow2(0) == 1 && a == b == 0 && Xor(0, 0) == 0;
      hide Xor, Pow2;
      TimesTwice(1, x);
      TimesTwice(1, y);
      TimesTwice(1, Xor(x, y));
    } else {
      var p := Pow2(n - 1);
      assert Pow2(n) == 2 * p;
      hide Xor, Pow2;
      assert a / 2 < p && b / 2 < p;
      XorShift(x, y, n - 1, a / 2, b / 2);
      TimesTwice(p, x);
      TimesTwice(p, y);
      TimesTwice(p, Xor(x, y));
      OneBit(Times(p, x), Times(p, y), a, b, Times(p, Xor(x, y)));
    }
  }

  lemma OneBit(u: nat, v: nat, a: nat, b: nat, w: nat)
    requires Xor(u + a / 2, v + b / 2) == w + Xor(a / 2, b / 2)
    ensures Xor(2 * u + a, 2 * v + b) == 2 * w + Xor(a, b)
  {
    hide Xor;
    Halved(u, a);
    Halved(v, b);
    XorHalf(2 * u + a, 2 * v + b);
    XorHalf(a, b);
    Doubled(Xor(2 * u + a, 2 * v + b), w, Xor(a, b));
  }

  lemma Halved(u: nat, a: nat)
    ensures (2 * u + a) / 2 == u + a / 2 && (2 * u + a) % 2 == a % 2
  {
  }

  lemma Doubled(u: nat, h: nat, w: nat)
    requires u / 2 == h + w / 2 && u % 2 == w % 2
    ensures u == 2 * h + w
  {
  }

  /** Exclusive or, byte by byte. */
  function Over(a: seq<byte>, b: seq<byte>): (r: seq<byte>)
    requires |a| == |b|
    ensures |r| == |a|
  {
    seq(|a|, i requires 0 <= i < |a| => XorByte(a[i], b[i]))
  }

  lemma OverPrefix(a: seq<byte>, b: seq<byte>, n: nat)
    requires |a| == |b| == n + 1
    ensures Over(a, b)[..n] == Over(a[..n], b[..n]) && Over(a, b)[n] == XorByte(a[n], b[n])
  {
    hide XorByte;
  }

  lemma {:induction false} NumOver(a: seq<byte>, b: seq<byte>)
    requires |a| == |b|
    ensures Num(Over(a, b)) == Xor(Num(a), Num(b))
    decreases |a|
  {
    if a == [] {
      assert Xor(0, 0) == 0;
    } else {
      hide Xor, Pow2;
      var n := |a| - 1;
      NumOver(a[..n], b[..n]);
      OverPrefix(a, b, n);
      Pow8();
      XorShift(Num(a[..n]), Num(b[..n]), 8, a[n], b[n]);
    }
  }

  // ---------- the initial vector

  lemma {:induction false} XorNothing(b: nat)
    ensures Xor(0, b) == b == Xor(b, 0)
  {
    if b > 0 {
      XorNothing(b / 2);
    }
  }

  function SsrcPart(ssrc: nat): seq<byte> { Zeros(4) + BigEndian(ssrc, 4) + Zeros(8) }
  function IndexPart(index: nat): seq<byte> { Zeros(6) + BigEndian(index, 8) + Zeros(2) }
  function SaltPart(salt: seq<byte>): seq<byte> { salt + Zeros(2) }

  lemma IvParts(salt: seq<byte>, index: nat, ssrc: nat)
    requires |salt| == 14
    ensures Iv(salt, index, ssrc) == Over(Over(SsrcPart(ssrc), IndexPart(index)), SaltPart(salt))
  {
    forall i | 0 <= i < 16
      ensures Iv(salt, index, ssrc)[i] == Over(Over(SsrcPart(ssrc), IndexPart(index)), SaltPart(salt))[i]
    {
      hide Xor;
      XorNothing(SsrcPart(ssrc)[i]);
      XorNothing(IndexPart(index)[i]);
      XorNothing(IvByte(index, ssrc, i));
    }
  }

  lemma Placed(x: nat, before: nat, n: nat, after: nat)
    requires x < Pow256(n)
    ensures Num(Zeros(before) + BigEndian(x, n) + Zeros(after)) == x * Pow256(after)
  {
    NumZeros(before);
    NumZeros(after);
    NumBigEndian(x, n);
    NumAppend(Zeros(before), BigEndian(x, n));
    NumAppend(Zeros(before) + BigEndian(x, n), Zeros(after));
  }

  lemma Powers()
    ensures Pow256(2) == TWO16 && Pow256(4) == TWO32 && Pow256(8) == TWO64
  {
    assert Pow256(4) == 0x1_0000_0000;
    assert Pow256(8) == 256 * (256 * (256 * (256 * Pow256(4))));
  }

  /** IV = (SSRC * 2^64) XOR (index * 2^16) XOR (salt * 2^16). */
  lemma IvNumber(salt: seq<byte>, index: nat, ssrc: nat)
    requires |salt| == 14 && index < TWO64 && ssrc < TWO32
    ensures Num(Iv(salt, index, ssrc)) == Xor(Xor(ssrc * TWO64, index * TWO16), Num(salt) * TWO16)
  {
    hide Xor, Num, Iv, Pow256;
    Powers();
    IvParts(salt, index, ssrc);
    Placed(ssrc, 4, 4, 8);
    Placed(index, 6, 8, 2);
    NumZeros(2);
    NumAppend(salt, Zeros(2));
    NumOver(SsrcPart(ssrc), IndexPart(index));
    NumOver(Over(SsrcPart(ssrc), IndexPart(index)), SaltPart(salt));
  }

  /** SSRC and index are in different bits. */
  lemma Disjoint(ssrc: nat, index: nat)
    requires index < TWO48
    ensures Xor(ssrc * TWO64, index * TWO16) == TWO64 * ssrc + index * TWO16
  {
    Powers64();
    hide Xor, Pow2;
    XorShift(ssrc, 0, 64, 0, index * TWO16);
    XorNothing(ssrc);
    XorNothing(index * TWO16);
    assert TWO64 * 0 == 0;
  }

  lemma Pow8()
    ensures Pow2(8) == 256
  {
    assert Pow2(4) == 16;
  }

  lemma Powers64()
    ensures Pow2(64) == TWO64
  {
    hide Pow2;
    Pow8();
    Pow2Add(8, 8);
    Pow2Add(16, 16);
    Pow2Add(32, 32);
  }

  /** Under one salt two packets have the same initial vector if and only if they have the same SSRC and index. */
  lemma IvShared(salt: seq<byte>, i: nat, a: nat, j: nat, b: nat)
    requires |salt| == 14 && i < TWO48 && j < TWO48 && a < TWO32 && b < TWO32
    ensures Iv(salt, i, a) == Iv(salt, j, b) <==> i == j && a == b
  {
    if Iv(salt, i, a) == Iv(salt, j, b) {
      hide Xor, Iv, Num;
      IvNumber(salt, i, a);
      IvNumber(salt, j, b);
      XorInjective(Xor(a * TWO64, i * TWO16), Xor(b * TWO64, j * TWO16), Num(salt) * TWO16);
      Disjoint(a, i);
      Disjoint(b, j);
      Apart(a, i, b, j);
    }
  }

  lemma Apart(a: nat, i: nat, b: nat, j: nat)
    requires i < TWO48 && j < TWO48 && TWO64 * a + i * TWO16 == TWO64 * b + j * TWO16
    ensures a == b && i == j
  {
  }

  // ---------- counter blocks

  /** The counter block of a packet is its initial vector plus the block number. */
  lemma BlockNumber(salt: seq<byte>, index: nat, ssrc: nat, n: nat)
    requires |salt| == 14 && n < TWO16
    ensures var iv := Iv(salt, index, ssrc); Num(Block(iv, n)) == Num(iv) + n && Num(Block(iv, n)[14..]) == n
  {
    var iv := Iv(salt, index, ssrc);
    var c: seq<byte> := [n / 256 % 256, n % 256];
    assert iv[14] == iv[15] == 0 && iv == iv[..14] + Zeros(2);
    hide Iv;
    assert Block(iv, n)[14..] == c;
    TwoBytes(c, n);
    NumZeros(2);
    hide Num;
    NumAppend(iv[..14], c);
    NumAppend(iv[..14], Zeros(2));
  }

  lemma TwoBytes(c: seq<byte>, n: nat)
    requires n < TWO16 && c == [n / 256 % 256, n % 256]
    ensures Num(c) == n
  {
    assert c[..1] == [n / 256 % 256] && c[..1][..0] == [];
    assert Num(c[..1]) == n / 256;
  }

  /** The key stream of a packet: byte `j` of the data is combined with byte `j % 16` of what the cipher makes of the
      initial vector plus `j / 16`, in the first 2^20 bytes, which is more than a packet can hold. */
  lemma KeyStream(cipher: Cipher, salt: seq<byte>, index: nat, ssrc: nat, data: seq<byte>, j: nat)
    requires |salt| == 14 && SixteenBytes(cipher) && j < |data| && j < 16 * TWO16
    ensures var iv := Iv(salt, index, ssrc);
      exists b: seq<byte> :: |b| == 16 && Num(b) == Num(iv) + j / 16
        && Encrypted(cipher, iv, data)[j] == Xor(data[j], cipher(b)[j % 16])
  {
    hide Iv, Num, Block;
    BlockNumber(salt, index, ssrc, j / 16);
    var b := Block(Iv(salt, index, ssrc), j / 16);
    assert |b| == 16 && Num(b) == Num(Iv(salt, index, ssrc)) + j / 16;
  }
}

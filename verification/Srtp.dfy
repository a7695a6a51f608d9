/** SRTP as the sender uses it (RFC 3711): the 48-bit packet index and the AES counter blocks. */
module Srtp {
  import opened Common
  import opened Arithmetic

  // ---------- the packet index (section 3.3.1)

  const FIRST_SEQUENCE: nat := 123
  const SEQUENCES: nat := 0x1_0000
  const ROLLOVERS: nat := 0x1_0000_0000
  const INDEXES: nat := 0x1_0000_0000_0000

  /** session.sequence, session.sequence_largest and session.roc. */
  datatype Counters = Counters(sequence: nat, largest: nat, roc: nat)

  const FRESH: Counters := Counters(FIRST_SEQUENCE, 0, 0)

  /** One RTP packet: session_send_data takes the next sequence number, session_encrypt counts a rollover. */
  function Sent(c: Counters): Counters {
    Counters((c.sequence + 1) % SEQUENCES, c.sequence,
             if c.sequence < c.largest then (c.roc + 1) % ROLLOVERS else c.roc)
  }

  /** The index that session_encrypt uses for the packet after which the counters are `c`. */
  function IndexOf(c: Counters): nat { c.largest + SEQUENCES * c.roc }

  function After(n: nat): Counters { if n == 0 then FRESH else Sent(After(n - 1)) }

  /** The index of the n-th packet of a session, counting from zero. */
  function Index(n: nat): nat { IndexOf(After(n + 1)) }

  lemma {:induction false} CountersExact(n: nat)
    ensures var c := After(n);
      && c.sequence == (FIRST_SEQUENCE + n) % SEQUENCES
      && (n > 0 ==> c.largest == (FIRST_SEQUENCE + n - 1) % SEQUENCES)
      && (n > 0 ==> c.roc == (FIRST_SEQUENCE + n - 1) / SEQUENCES % ROLLOVERS)
      && (n == 0 ==> c.largest == 0 && c.roc == 0)
  {
    if n > 0 {
      CountersExact(n - 1);
      Rollover(FIRST_SEQUENCE + n - 1);
      CountedRollover((FIRST_SEQUENCE + n - 1) / SEQUENCES);
    }
  }

  /** The sequence number falls below its predecessor exactly when the quotient goes up. */
  lemma Rollover(x: nat)
    requires x > 0
    ensures if x % SEQUENCES < (x - 1) % SEQUENCES then x / SEQUENCES == (x - 1) / SEQUENCES + 1
            else x / SEQUENCES == (x - 1) / SEQUENCES
    ensures (x % SEQUENCES + 1) % SEQUENCES == (x + 1) % SEQUENCES
  {
  }

  lemma CountedRollover(q: nat)
    ensures q > 0 ==> ((q - 1) % ROLLOVERS + 1) % ROLLOVERS == q % ROLLOVERS
  {
  }

  /** The index of every packet is the first sequence number plus the packets before it, modulo 2^48. */
  lemma IndexExact(n: nat)
    ensures Index(n) == (FIRST_SEQUENCE + n) % INDEXES
  {
    hide After;
    CountersExact(n + 1);
    TwoParts(FIRST_SEQUENCE + n);
  }

  lemma TwoParts(x: nat)
    ensures x % SEQUENCES + SEQUENCES * (x / SEQUENCES % ROLLOVERS) == x % INDEXES
  {
    var q, r := x / SEQUENCES, x % SEQUENCES;
    var h, l := q / ROLLOVERS, q % ROLLOVERS;
    assert x == SEQUENCES * q + r && q == ROLLOVERS * h + l;
    assert x == INDEXES * h + (SEQUENCES * l + r);
  }

  /** Two packets share an index if and only if they are a multiple of 2^48 apart. */
  lemma IndexShared(m: nat, n: nat)
    requires m <= n
    ensures Index(m) == Index(n) <==> (n - m) % INDEXES == 0
  {
    hide Index;
    IndexExact(m);
    IndexExact(n);
    SameRemainder(FIRST_SEQUENCE + m, FIRST_SEQUENCE + n);
  }

  lemma SameRemainder(x: nat, y: nat)
    requires x <= y
    ensures x % INDEXES == y % INDEXES <==> (y - x) % INDEXES == 0
  {
  }

  /** Within the first 2^48 indexes no index is used twice, and they only go up. */
  lemma IndexIncreases(m: nat, n: nat)
    requires m < n && FIRST_SEQUENCE + n < INDEXES
    ensures Index(m) < Index(n)
  {
    hide Index;
    IndexExact(m);
    IndexExact(n);
    Remainder(FIRST_SEQUENCE + m, INDEXES, 0, FIRST_SEQUENCE + m);
    Remainder(FIRST_SEQUENCE + n, INDEXES, 0, FIRST_SEQUENCE + n);
  }

  /** The first index that does not fit 48 bits starts again from zero. */
  lemma IndexWraps()
    ensures Index(INDEXES - FIRST_SEQUENCE) == 0
  {
    hide Index;
    IndexExact(INDEXES - FIRST_SEQUENCE);
  }

  // ---------- exclusive or

  function Xor(a: nat, b: nat): (r: nat)
    decreases a + b
  {
    if a == 0 && b == 0 then 0 else 2 * Xor(a / 2, b / 2) + (a % 2 + b % 2) % 2
  }

  lemma {:induction false} XorBound(a: nat, b: nat, n: nat, p: nat)
    requires p == Pow2(n) && a < p && b < p
    ensures Xor(a, b) < p
    decreases n
  {
    if a != 0 || b != 0 {
      assert n > 0;
      XorBound(a / 2, b / 2, n - 1, p / 2);
    }
  }

  function XorByte(a: byte, b: byte): (r: byte) {
    assert Pow2(8) == 256;
    XorBound(a, b, 8, 256);
    Xor(a, b)
  }

  lemma {:induction false} XorCancels(a: nat, k: nat)
    ensures Xor(Xor(a, k), k) == a
    decreases a + k
  {
    if a != 0 || k != 0 {
      hide Xor;
      XorCancels(a / 2, k / 2);
      XorHalf(a, k);
      XorHalf(Xor(a, k), k);
      ParityTwice(a % 2, k % 2);
      SameHalves(Xor(Xor(a, k), k), a);
    }
  }

  lemma SameHalves(x: nat, y: nat)
    requires x / 2 == y / 2 && x % 2 == y % 2
    ensures x == y
  {
  }

  lemma ParityTwice(p: nat, q: nat)
    requires p < 2 && q < 2
    ensures ((p + q) % 2 + q) % 2 == p
  {
  }

  lemma XorHalf(a: nat, b: nat)
    ensures Xor(a, b) / 2 == Xor(a / 2, b / 2) && Xor(a, b) % 2 == (a % 2 + b % 2) % 2
  {
  }

  lemma XorInjective(a: nat, b: nat, k: nat)
    requires Xor(a, k) == Xor(b, k)
    ensures a == b
  {
    XorCancels(a, k);
    XorCancels(b, k);
  }

  // ---------- counter blocks (section 4.1.1)

  function BigEndian(x: nat, n: nat): (r: seq<byte>)
    ensures |r| == n
  {
    if n == 0 then [] else BigEndian(x / 256, n - 1) + [x % 256]
  }

  lemma {:induction false} BigEndianInjective(x: nat, y: nat, n: nat, p: nat)
    requires p == Pow256(n) && x < p && y < p && BigEndian(x, n) == BigEndian(y, n)
    ensures x == y
    decreases n
  {
    if n > 0 {
      var a, b := BigEndian(x, n), BigEndian(y, n);
      assert a[..n - 1] == BigEndian(x / 256, n - 1) && b[..n - 1] == BigEndian(y / 256, n - 1);
      assert a[n - 1] == x % 256 && b[n - 1] == y % 256;
      BigEndianInjective(x / 256, y / 256, n - 1, p / 256);
    }
  }

  function Pow256(n: nat): nat { if n == 0 then 1 else 256 * Pow256(n - 1) }

  /** Byte `i` of what create_iv puts together before the salt: the SSRC from byte 4, the 64-bit index from byte 6. */
  function IvByte(index: nat, ssrc: nat, i: nat): byte
    requires i < 16
  {
    var s := if 4 <= i < 8 then BigEndian(ssrc, 4)[i - 4] else 0;
    if 6 <= i < 14 then XorByte(s, BigEndian(index, 8)[i - 6]) else s
  }

  /** create_iv */
  function Iv(salt: seq<byte>, index: nat, ssrc: nat): (iv: seq<byte>)
    requires |salt| == 14
    ensures |iv| == 16
  {
    seq(16, i requires 0 <= i < 16 => if i < 14 then XorByte(IvByte(index, ssrc, i), salt[i])
      else IvByte(index, ssrc, i))
  }

  /** The cipher input for key-stream block `n`: the block number replaces the last two bytes. */
  function Block(iv: seq<byte>, n: nat): (b: seq<byte>)
    requires |iv| == 16
    ensures |b| == 16
  {
    iv[..14] + [n / 256 % 256, n % 256]
  }

  /** Under one salt and SSRC, the initial vector determines the packet index. */
  lemma IvInjective(salt: seq<byte>, ssrc: nat, a: nat, b: nat)
    requires |salt| == 14 && a < Pow256(8) && b < Pow256(8)
    requires Iv(salt, a, ssrc)[..14] == Iv(salt, b, ssrc)[..14]
    ensures a == b
  {
    var x, y := BigEndian(a, 8), BigEndian(b, 8);
    forall i | 0 <= i < 8 ensures x[i] == y[i] {
      var j := i + 6;
      assert Iv(salt, a, ssrc)[..14][j] == Iv(salt, b, ssrc)[..14][j];
      XorInjective(IvByte(a, ssrc, j), IvByte(b, ssrc, j), salt[j]);
      var s := if j < 8 then BigEndian(ssrc, 4)[j - 4] else 0;
      XorCommutes(s, x[i]);
      XorCommutes(s, y[i]);
      XorInjective(x[i], y[i], s);
    }
    assert x == y;
    BigEndianInjective(a, b, 8, Pow256(8));
  }

  lemma {:induction false} XorCommutes(a: nat, b: nat)
    ensures Xor(a, b) == Xor(b, a)
    decreases a + b
  {
    if a != 0 || b != 0 {
      XorCommutes(a / 2, b / 2);
    }
  }

  lemma BlockInjective(iv: seq<byte>, iv': seq<byte>, m: nat, n: nat)
    requires |iv| == |iv'| == 16 && m < 0x1_0000 && n < 0x1_0000 && Block(iv, m) == Block(iv', n)
    ensures iv[..14] == iv'[..14] && m == n
  {
    var a, b := Block(iv, m), Block(iv', n);
    assert a[..14] == iv[..14] && b[..14] == iv'[..14];
    assert a[14] == m / 256 % 256 && b[14] == n / 256 % 256;
    assert a[15] == m % 256 && b[15] == n % 256;
  }

  /** No counter block is ever used twice in a session of fewer than 2^48 - 123 packets:
      different packets, or different blocks of one packet, give different cipher inputs. */
  lemma BlocksDistinct(salt: seq<byte>, ssrc: nat, m: nat, i: nat, n: nat, j: nat)
    requires |salt| == 14 && FIRST_SEQUENCE + m < INDEXES && FIRST_SEQUENCE + n < INDEXES
    requires i < 0x1_0000 && j < 0x1_0000 && (m != n || i != j)
    ensures Block(Iv(salt, Index(m), ssrc), i) != Block(Iv(salt, Index(n), ssrc), j)
  {
    hide Index, Block, Iv;
    if m <= n {
      BlocksShared(salt, ssrc, m, i, n, j);
      Remainder(n - m, INDEXES, 0, n - m);
    } else {
      BlocksShared(salt, ssrc, n, j, m, i);
      Remainder(m - n, INDEXES, 0, m - n);
    }
  }

  /** Two counter blocks of a session of any length are the same if and only if they have the same number in packets
      that are a multiple of 2^48 apart. */
  lemma BlocksShared(salt: seq<byte>, ssrc: nat, m: nat, i: nat, n: nat, j: nat)
    requires |salt| == 14 && m <= n && i < 0x1_0000 && j < 0x1_0000
    ensures Block(Iv(salt, Index(m), ssrc), i) == Block(Iv(salt, Index(n), ssrc), j)
      <==> i == j && (n - m) % INDEXES == 0
  {
    hide Index, Block, Iv;
    IndexShared(m, n);
    IndexBelow(m);
    IndexBelow(n);
    if Block(Iv(salt, Index(m), ssrc), i) == Block(Iv(salt, Index(n), ssrc), j) {
      BlockInjective(Iv(salt, Index(m), ssrc), Iv(salt, Index(n), ssrc), i, j);
      IvInjective(salt, ssrc, Index(m), Index(n));
    }
  }

  lemma IndexBelow(n: nat)
    ensures Index(n) < Pow256(8)
  {
    hide Index;
    IndexExact(n);
    assert Pow256(4) == 0x1_0000_0000;
    assert Pow256(8) == 256 * (256 * (256 * (256 * Pow256(4))));
  }

  // ---------- the code that runs per packet

  /** A block cipher under a fixed key. */
  type Cipher = seq<byte> -> seq<byte>

  ghost predicate SixteenBytes(cipher: Cipher) { forall b :: |cipher(b)| == 16 }

  function KeyByte(cipher: Cipher, iv: seq<byte>, j: nat): byte
    requires |iv| == 16 && SixteenBytes(cipher)
  {
    cipher(Block(iv, j / 16))[j % 16]
  }

  function Encrypted(cipher: Cipher, iv: seq<byte>, data: seq<byte>): (r: seq<byte>)
    requires |iv| == 16 && SixteenBytes(cipher)
    ensures |r| == |data|
  {
    seq(|data|, j requires 0 <= j < |data| => XorByte(data[j], KeyByte(cipher, iv, j)))
  }

  /** Encrypting twice with the same initial vector restores the data: the receiver runs the same code. */
  lemma EncryptedTwice(cipher: Cipher, iv: seq<byte>, data: seq<byte>)
    requires |iv| == 16 && SixteenBytes(cipher)
    ensures Encrypted(cipher, iv, Encrypted(cipher, iv, data)) == data
  {
    var once := Encrypted(cipher, iv, data);
    forall j | 0 <= j < |data| ensures Encrypted(cipher, iv, once)[j] == data[j] {
      XorCancels(data[j], KeyByte(cipher, iv, j));
    }
  }

  /** encrypt_counter: the key stream is laid over the buffer in place; only the counter bytes of `iv` change. */
  method EncryptCounter(cipher: Cipher, iv: array<byte>, buf: array<byte>)
    requires iv.Length == 16 && iv != buf && SixteenBytes(cipher)
    modifies iv, buf
    ensures buf[..] == Encrypted(cipher, old(iv[..]), old(buf[..])) && iv[..14] == old(iv[..14])
  {
    ghost var iv0, data := iv[..], buf[..];
    var i, outpos := 0, 0;
    while outpos < buf.Length
      invariant outpos <= buf.Length && (outpos < buf.Length ==> outpos == 16 * i)
      invariant iv[..14] == iv0[..14]
      invariant forall j :: 0 <= j < outpos ==> buf[j] == XorByte(data[j], KeyByte(cipher, iv0, j))
      invariant forall j :: outpos <= j < buf.Length ==> buf[j] == data[j]
    {
      iv[15] := i % 256;
      iv[14] := i / 256 % 256;
      var keystream := cipher(iv[..]);
      assert iv[..] == Block(iv0, i);
      var j := 0;
      while j < 16 && outpos < buf.Length
        invariant j <= 16 && outpos <= buf.Length && outpos == 16 * i + j
        invariant forall j :: 0 <= j < outpos ==> buf[j] == XorByte(data[j], KeyByte(cipher, iv0, j))
        invariant forall j :: outpos <= j < buf.Length ==> buf[j] == data[j]
        invariant iv[..14] == iv0[..14]
      {
        assert outpos / 16 == i && outpos % 16 == j;
        buf[outpos] := XorByte(buf[outpos], keystream[j]);
        j, outpos := j + 1, outpos + 1;
      }
      i := i + 1;
    }
    assert buf[..] == Encrypted(cipher, iv0, data);
  }

  /** create_iv */
  method CreateIv(iv: array<byte>, salt: seq<byte>, index: nat, ssrc: nat)
    requires iv.Length == 16 && |salt| == 14
    modifies iv
    ensures iv[..] == Iv(salt, index, ssrc)
  {
    for i := 0 to 16
      invariant forall j :: 0 <= j < i ==> iv[j] == 0
    {
      iv[i] := 0;
    }
    var net := BigEndian(ssrc, 4);
    iv[4], iv[5], iv[6], iv[7] := net[0], net[1], net[2], net[3];
    var indexbuf := BigEndian(index, 8);
    ghost var before := iv[..];
    for i := 0 to 8
      invariant forall j :: 0 <= j < 16 ==> iv[j] == if 6 <= j < 6 + i then XorByte(before[j], indexbuf[j - 6])
        else before[j]
    {
      iv[6 + i] := XorByte(iv[6 + i], indexbuf[i]);
    }
    assert forall j :: 0 <= j < 16 ==> iv[j] == IvByte(index, ssrc, j);
    for i := 0 to 14
      invariant forall j :: 0 <= j < 16 ==> iv[j] == if j < i then XorByte(IvByte(index, ssrc, j), salt[j])
        else IvByte(index, ssrc, j)
    {
      iv[i] := XorByte(iv[i], salt[i]);
    }
    assert iv[..] == Iv(salt, index, ssrc);
  }

  /** The per-session counters, updated as each RTP packet is sent. */
  class Session {
    var sequence: nat
    var sequenceLargest: nat
    var roc: nat
    ghost var packets: nat

    ghost predicate Valid()
      reads this
    {
      Counters(sequence, sequenceLargest, roc) == After(packets)
    }

    constructor ()
      ensures Valid() && packets == 0
    {
      sequence, sequenceLargest, roc, packets := FIRST_SEQUENCE, 0, 0, 0;
    }

    /** The sequence number of session_send_data and the index part of session_encrypt. */
    method NextIndex() returns (index: nat)
      requires Valid()
      modifies this
      ensures Valid() && packets == old(packets) + 1 && index == Index(old(packets))
    {
      var seqNumber := sequence;
      sequence := (sequence + 1) % SEQUENCES;
      if seqNumber < sequenceLargest {
        roc := (roc + 1) % ROLLOVERS;
      }
      sequenceLargest := seqNumber;
      index := seqNumber + SEQUENCES * roc;
      packets := packets + 1;
    }
  }
}

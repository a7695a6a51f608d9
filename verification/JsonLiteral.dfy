/** The string literals that cJSON accepts, without its two passes: how they are written and what they mean. */
module JsonLiteral {
  import opened Common
  import opened JsonString
  import opened JsonMinify
  import opened JsonGrammar
  import P = JsonPieces

  /** A byte as it stands, an escape of two bytes, a backslash and u with four bytes, or a backslash at the very end. */
  datatype Char =
    | Unescaped(b: byte)
    | Short(letter: byte)
    | Code(digits: seq<byte>)
    | Dangling

  const SHORT: map<byte, byte> :=
    map[34 := 34, 92 := 92, 47 := 47, 98 := 8, 102 := 12, 110 := 10, 114 := 13, 116 := 9]

  /** Any byte but a backslash stands for itself, and the four bytes behind a backslash and u may be anything. */
  ghost predicate Loose(c: Char) {
    match c
    case Unescaped(b) => b != BACKSLASH
    case Short(letter) => letter in SHORT
    case Code(digits) => |digits| == 4
    case Dangling => true
  }

  ghost predicate AllLoose(cs: seq<Char>) {
    forall i | 0 <= i < |cs| :: Loose(cs[i]) && (cs[i].Dangling? ==> i + 1 == |cs|)
  }

  function Spelled(c: Char): seq<byte> {
    match c
    case Unescaped(b) => [b]
    case Short(letter) => [BACKSLASH, letter]
    case Code(digits) => [BACKSLASH, LETTER_U] + digits
    case Dangling => [BACKSLASH]
  }

  function SpelledAll(cs: seq<Char>): seq<byte> { if cs == [] then [] else Spelled(cs[0]) + SpelledAll(cs[1..]) }

  /** The code unit of four hexadecimal digits; zero for any other four bytes. */
  function Unit(c: Char): (u: nat)
    requires c.Code? && |c.digits| == 4
    ensures u < 0x1_0000
  {
    Hex4(c.digits)
  }

  ghost predicate High(c: Char) { c.Code? && |c.digits| == 4 && 0xd800 <= Unit(c) <= 0xdbff }
  ghost predicate Low(c: Char) { c.Code? && |c.digits| == 4 && 0xdc00 <= Unit(c) <= 0xdfff }

  /** The bytes that a string stands for; None when a surrogate stands alone. */
  ghost function Meant(cs: seq<Char>): Option<seq<byte>>
    requires AllLoose(cs)
  {
    if cs == [] then Some([])
    else
      match cs[0]
      case Unescaped(b) => Prepend([b], Meant(cs[1..]))
      case Short(letter) => Prepend([SHORT[letter]], Meant(cs[1..]))
      case Dangling => Some([QUOTE])
      case Code(_) =>
        if Low(cs[0]) then None
        else if !High(cs[0]) then Prepend(Utf8(Unit(cs[0])), Meant(cs[1..]))
        else if |cs| == 1 || !Low(cs[1]) then None
        else Prepend(Utf8(0x1_0000 + (Unit(cs[0]) - 0xd800) * 1024 + (Unit(cs[1]) - 0xdc00)), Meant(cs[2..]))
  }

  lemma Grouped(x: seq<byte>, y: seq<byte>)
    ensures x + y + [QUOTE] == x + (y + [QUOTE])
  {
  }

  lemma {:induction false} DecodeMeant(cs: seq<Char>)
    requires AllLoose(cs)
    ensures Decode(SpelledAll(cs) + [QUOTE], |SpelledAll(cs)|) == Meant(cs)
    decreases |cs|
  {
    if cs != [] && cs[0].Dangling? {
      assert cs == [Dangling] && SpelledAll(cs) == [BACKSLASH];
      LastTurn();
    } else if cs != [] {
      var t, e := SpelledAll(cs) + [QUOTE], |SpelledAll(cs)|;
      TurnMeant(cs);
      hide Turn, SpelledAll;
      if Turn(t, e).Some? {
        var k := if High(cs[0]) then 2 else 1;
        var rest := cs[k..];
        DecodeMeant(rest);
      }
    }
  }

  /** A backslash before the closing quote takes the quote for its letter, and the loop is past its end. */
  lemma LastTurn()
    ensures Decode([BACKSLASH] + [QUOTE], 1) == Some([QUOTE])
  {
    assert Turn([BACKSLASH] + [QUOTE], 1) == Some(Literal([QUOTE], 2));
  }

  /** What one turn leaves of a string when it has read `k` characters, `n` bytes, as `text`. */
  ghost predicate Took(cs: seq<Char>, r: Option<Literal>, k: nat)
    requires AllLoose(cs)
  {
    var t := SpelledAll(cs) + [QUOTE];
    if r.None? then Meant(cs).None?
    else
      && k <= |cs| && r.value.length <= |SpelledAll(cs)|
      && t[r.value.length..] == SpelledAll(cs[k..]) + [QUOTE]
      && |SpelledAll(cs)| == r.value.length + |SpelledAll(cs[k..])|
      && Meant(cs) == Prepend(r.value.text, Meant(cs[k..]))
  }

  lemma TookOne(cs: seq<Char>, r: Option<Literal>)
    requires AllLoose(cs) && cs != [] && r.Some? && r.value.length == |Spelled(cs[0])|
    requires Meant(cs) == Prepend(r.value.text, Meant(cs[1..]))
    ensures Took(cs, r, 1)
  {
    hide Spelled, Meant;
    var x, y := Spelled(cs[0]), SpelledAll(cs[1..]);
    Grouped(x, y);
    assert (x + (y + [QUOTE]))[|x|..] == y + [QUOTE];
  }

  lemma TookTwo(cs: seq<Char>, r: Option<Literal>)
    requires AllLoose(cs) && |cs| > 1 && r.Some? && r.value.length == |Spelled(cs[0])| + |Spelled(cs[1])|
    requires Meant(cs) == Prepend(r.value.text, Meant(cs[2..]))
    ensures Took(cs, r, 2)
  {
    hide Spelled, Meant;
    var x, y, z := Spelled(cs[0]), Spelled(cs[1]), SpelledAll(cs[2..]);
    assert cs[1..][1..] == cs[2..];
    assert SpelledAll(cs) == x + (y + z);
    assert x + (y + z) + [QUOTE] == (x + y) + (z + [QUOTE]);
    assert ((x + y) + (z + [QUOTE]))[|x| + |y|..] == z + [QUOTE];
  }

  /** One turn reads one character, or a pair of surrogates. */
  lemma TurnMeant(cs: seq<Char>)
    requires AllLoose(cs) && cs != [] && !cs[0].Dangling?
    ensures var t, e := SpelledAll(cs) + [QUOTE], |SpelledAll(cs)|;
      0 < e && Took(cs, Turn(t, e), if High(cs[0]) then 2 else 1)
  {
    var c, y := cs[0], SpelledAll(cs[1..]);
    assert |Spelled(c)| > 0 && (c.Code? ==> |Spelled(c)| == 6);
    Grouped(Spelled(c), y);
    hide Spelled, Took, Turn, Meant, High;
    if c.Code? {
      CodeMeant(cs, y);
    } else {
      PlainMeant(cs, y);
    }
  }

  lemma PlainMeant(cs: seq<Char>, y: seq<byte>)
    requires AllLoose(cs) && cs != [] && !cs[0].Code? && !cs[0].Dangling?
    ensures var t := Spelled(cs[0]) + (y + [QUOTE]);
      !High(cs[0]) && Took(cs, Turn(t, |Spelled(cs[0])| + |y|), 1)
  {
    hide Took, Turn, SpelledAll;
    PlainTurn(cs[0], y + [QUOTE], |Spelled(cs[0])| + |y|);
    TookOne(cs, Turn(Spelled(cs[0]) + (y + [QUOTE]), |Spelled(cs[0])| + |y|));
  }

  lemma CodeMeant(cs: seq<Char>, y: seq<byte>)
    requires AllLoose(cs) && cs != [] && cs[0].Code? && y == SpelledAll(cs[1..])
    ensures var t := Spelled(cs[0]) + (y + [QUOTE]); Took(cs, Turn(t, 6 + |y|), if High(cs[0]) then 2 else 1)
  {
    var c := cs[0];
    var r := Turn(Spelled(c) + (y + [QUOTE]), 6 + |y|);
    hide Turn, Hex4, Utf8, SpelledAll, Spelled;
    SixBytes(c);
    CodeTurn(c, y + [QUOTE], 6 + |y|);
    if High(c) {
      PairMeant(cs, y, r);
    } else if !Low(c) {
      TookOne(cs, r);
    }
  }

  lemma SixBytes(c: Char)
    requires Loose(c) && c.Code?
    ensures |Spelled(c)| == 6
  {
  }

  lemma PairMeant(cs: seq<Char>, y: seq<byte>, r: Option<Literal>)
    requires AllLoose(cs) && cs != [] && High(cs[0]) && y == SpelledAll(cs[1..])
    requires r == Second(cs[0], y + [QUOTE], 6 + |y|)
    ensures Took(cs, r, 2)
  {
    hide Hex4, Utf8, SpelledAll, Spelled;
    SecondUnit(cs[1..]);
    if |cs| > 1 && Low(cs[1]) {
      assert cs[1..][0] == cs[1];
      SixBytes(cs[0]);
      SixBytes(cs[1]);
      TookTwo(cs, r);
    }
  }

  lemma PlainTurn(c: Char, y: seq<byte>, e: nat)
    requires Loose(c) && !c.Code? && !c.Dangling? && 0 < e < |Spelled(c) + y|
    ensures Turn(Spelled(c) + y, e) == Some(Literal([if c.Short? then SHORT[c.letter] else c.b], |Spelled(c)|))
  {
  }

  /** What is made of a high surrogate and the text behind it. */
  ghost function Second(c: Char, y: seq<byte>, e: nat): Option<Literal>
    requires High(c) && e < 6 + |y|
  {
    if e >= 12 && y[0] == BACKSLASH && y[1] == LETTER_U && 0xdc00 <= Hex4(y[2..]) <= 0xdfff
    then Some(Literal(Utf8(0x1_0000 + (Unit(c) - 0xd800) * 1024 + (Hex4(y[2..]) - 0xdc00)), 12))
    else None
  }

  lemma CodeTurn(c: Char, y: seq<byte>, e: nat)
    requires Loose(c) && c.Code? && 6 <= e < 6 + |y|
    ensures var r := Turn(Spelled(c) + y, e);
      && (Low(c) ==> r.None?)
      && (!High(c) && !Low(c) ==> r == Some(Literal(Utf8(Unit(c)), 6)))
      && (High(c) ==> r == Second(c, y, e))
  {
    var t := Spelled(c) + y;
    UnitHere(c, y);
    CodeSlices(c, y);
    hide Spelled, Hex4, Utf8;
  }

  lemma CodeSlices(c: Char, y: seq<byte>)
    requires Loose(c) && c.Code?
    ensures var t := Spelled(c) + y;
      && |t| == 6 + |y| && t[0] == BACKSLASH && t[1] == LETTER_U
      && (forall i | 0 <= i < |y| :: t[6 + i] == y[i]) && (|y| >= 2 ==> t[8..] == y[2..])
  {
  }

  /** What stands behind a high surrogate. */
  lemma SecondUnit(cs: seq<Char>)
    requires AllLoose(cs)
    ensures var y := SpelledAll(cs) + [QUOTE];
      (|SpelledAll(cs)| >= 6 && y[0] == BACKSLASH && y[1] == LETTER_U && 0xdc00 <= Hex4(y[2..]) <= 0xdfff)
      <==> (cs != [] && Low(cs[0]))
    ensures cs != [] && Low(cs[0]) ==> Hex4((SpelledAll(cs) + [QUOTE])[2..]) == Unit(cs[0])
  {
    if cs != [] {
      var x, y := Spelled(cs[0]), SpelledAll(cs[1..]) + [QUOTE];
      Grouped(x, SpelledAll(cs[1..]));
      assert SpelledAll(cs) + [QUOTE] == x + y;
      hide SpelledAll, Hex4;
      if cs[0].Code? {
        UnitHere(cs[0], y);
      }
    }
  }

  lemma UnitHere(c: Char, y: seq<byte>)
    requires Loose(c) && c.Code?
    ensures Hex4((Spelled(c) + y)[2..]) == Unit(c)
  {
    assert (Spelled(c) + y)[2..] == c.digits + y;
    assert Hex4(c.digits + y) == Hex4(c.digits);
  }

  // ---------- every literal that is read is one of these

  lemma {:induction false} DecodeRead(raw: seq<byte>) returns (cs: seq<Char>)
    requires Decode(raw + [QUOTE], |raw|).Some?
    ensures AllLoose(cs) && SpelledAll(cs) == raw
    decreases |raw|
  {
    var t, e := raw + [QUOTE], |raw|;
    if raw == [] {
      cs := [];
    } else if raw == [BACKSLASH] {
      cs := [Dangling];
    } else {
      var head, n := TurnRead(raw);
      hide Turn, SpelledAll, AllLoose;
      BehindTurn(raw, n);
      var rest := DecodeRead(raw[n..]);
      cs := head + rest;
      Together(head, rest);
      SpelledTogether(head, rest);
    }
  }

  lemma BehindTurn(raw: seq<byte>, n: nat)
    requires n <= |raw|
    ensures (raw + [QUOTE])[n..] == raw[n..] + [QUOTE] && raw == raw[..n] + raw[n..]
  {
  }

  lemma Together(x: seq<Char>, y: seq<Char>)
    requires AllLoose(x) && AllLoose(y) && forall c | c in x :: !c.Dangling?
    ensures AllLoose(x + y)
  {
  }

  lemma {:induction false} SpelledTogether(x: seq<Char>, y: seq<Char>)
    ensures SpelledAll(x + y) == SpelledAll(x) + SpelledAll(y)
  {
    hide Spelled;
    if x == [] {
      assert x + y == y;
    } else {
      SpelledTogether(x[1..], y);
      assert (x + y)[1..] == x[1..] + y;
      assert SpelledAll(x + y) == Spelled(x[0]) + SpelledAll(x[1..] + y);
      hide SpelledAll;
      Regroup(Spelled(x[0]), SpelledAll(x[1..]), SpelledAll(y));
    }
  }

  lemma Regroup(x: seq<byte>, y: seq<byte>, z: seq<byte>)
    ensures x + (y + z) == x + y + z
  {
  }

  /** What one turn has read. */
  lemma TurnRead(raw: seq<byte>) returns (head: seq<Char>, n: nat)
    requires raw != [] && raw != [BACKSLASH] && Turn(raw + [QUOTE], |raw|).Some?
    ensures n <= |raw| && n == Turn(raw + [QUOTE], |raw|).value.length && SpelledAll(head) == raw[..n]
    ensures AllLoose(head) && forall c | c in head :: !c.Dangling?
  {
    var t, e := raw + [QUOTE], |raw|;
    n := Turn(t, e).value.length;
    if raw[0] != BACKSLASH {
      head := [Unescaped(raw[0])];
    } else if t[1] != LETTER_U {
      assert t[1] == raw[1];
      head := [Short(raw[1])];
    } else {
      head := CodesRead(raw, n);
    }
  }

  lemma CodesRead(raw: seq<byte>, n: nat) returns (head: seq<Char>)
    requires raw != [] && raw[0] == BACKSLASH && (raw + [QUOTE])[1] == LETTER_U
    requires Utf16(raw + [QUOTE], |raw|).Some? && n == Utf16(raw + [QUOTE], |raw|).value.length
    ensures n <= |raw| && SpelledAll(head) == raw[..n] && AllLoose(head) && forall c | c in head :: !c.Dangling?
  {
    var t := raw + [QUOTE];
    var first := Code(raw[2..6]);
    assert t[1] == raw[1] && raw[..6] == [BACKSLASH, LETTER_U] + raw[2..6];
    if n == 6 {
      head := [first];
    } else {
      var second := Code(raw[8..12]);
      head := [first, second];
      assert t[6] == raw[6] && t[7] == raw[7];
      assert raw[..12] == raw[..6] + ([BACKSLASH, LETTER_U] + raw[8..12]);
      assert SpelledAll(head[1..]) == Spelled(second);
    }
  }

  // ---------- the language

  /** A literal with `raw` between its quotes stands for `text`: no quote in it is without a backslash of its own, and
      as a string of characters it has that meaning. The two readings need not agree on where escapes begin. */
  ghost predicate Stands(raw: seq<byte>, text: seq<byte>) {
    && (exists us :: P.Even(us) && P.Flat(us) == raw)
    && (exists cs :: AllLoose(cs) && SpelledAll(cs) == raw && Meant(cs) == Some(text))
  }

  /** The literals that both passes of parse_string accept, and what they make of them. */
  lemma LiteralExactly(raw: seq<byte>, text: seq<byte>)
    ensures Literally(raw) == Some(text) <==> Stands(raw, text)
  {
    var t := raw + [QUOTE];
    hide Close, Decode;
    if Literally(raw) == Some(text) {
      var us := P.CloseUnits(t);
      assert t[..|raw|] == raw;
      var cs := DecodeRead(raw);
      DecodeMeant(cs);
    }
    if Stands(raw, text) {
      var us :| P.Even(us) && P.Flat(us) == raw;
      P.UnitsClose(us, []);
      assert raw + ([QUOTE] + []) == t;
      var cs :| AllLoose(cs) && SpelledAll(cs) == raw && Meant(cs) == Some(text);
      DecodeMeant(cs);
    }
  }
}

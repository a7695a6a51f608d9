/** JSON strings (section 7 of RFC 8259) as cJSON prints and parses them: escapes, \u literals and their UTF-8 form. */
module JsonString {
  import opened Common

  const QUOTE: byte := 34
  const BACKSLASH: byte := 92
  const SLASH: byte := 47
  const LETTER_U: byte := 117

  /** A C string: no byte is zero. */
  ghost predicate NulFree(s: seq<byte>) { forall i :: 0 <= i < |s| ==> s[i] != 0 }

  // ---------- printing

  function HexDigit(n: nat): (b: byte)
    requires n < 16
  {
    if n < 10 then 48 + n else 87 + n
  }

  /** The letter of a two-character escape, for the bytes that have one. */
  function Letter(b: byte): Option<byte> {
    if b == QUOTE then Some(QUOTE)
    else if b == BACKSLASH then Some(BACKSLASH)
    else if b == 8 then Some(98)
    else if b == 12 then Some(102)
    else if b == 10 then Some(110)
    else if b == 13 then Some(114)
    else if b == 9 then Some(116)
    else None
  }

  /** What print_string_ptr writes for one byte. */
  function Escape(b: byte): (r: seq<byte>)
    ensures 1 <= |r| <= 6
  {
    match Letter(b)
    case Some(l) => [BACKSLASH, l]
    case None => if b < 32 then [BACKSLASH, LETTER_U, 48, 48, HexDigit(b / 16), HexDigit(b % 16)] else [b]
  }

  function EscapeAll(s: seq<byte>): seq<byte> {
    if s == [] then [] else Escape(s[0]) + EscapeAll(s[1..])
  }

  function PrintString(s: seq<byte>): seq<byte> { [QUOTE] + EscapeAll(s) + [QUOTE] }

  // ---------- the first pass of parse_string

  /** The position of the closing quote; a backslash hides the byte behind it. */
  function Close(t: seq<byte>): (r: Option<nat>)
    ensures r.Some? ==> r.value < |t| && t[r.value] == QUOTE
    decreases |t|
  {
    if t == [] then None
    else if t[0] == QUOTE then Some(0)
    else if t[0] == BACKSLASH then
      if |t| < 2 then None
      else
        var r := Close(t[2..]);
        if r.None? then None else Some(r.value + 2)
    else
      var r := Close(t[1..]);
      if r.None? then None else Some(r.value + 1)
  }

  /** The number of backslashes the first pass counts before the closing quote. */
  function Skips(t: seq<byte>): (n: nat)
    requires Close(t).Some?
    ensures 2 * n <= Close(t).value
    decreases |t|
  {
    if t[0] == QUOTE then 0
    else if t[0] == BACKSLASH then 1 + Skips(t[2..])
    else Skips(t[1..])
  }

  // ---------- \u literals

  function HexValue(b: byte): Option<nat> {
    if 48 <= b <= 57 then Some(b - 48)
    else if 65 <= b <= 70 then Some(b - 55)
    else if 97 <= b <= 102 then Some(b - 87)
    else None
  }

  /** parse_hex4: zero when a digit is not hexadecimal. */
  function Hex4(t: seq<byte>): (n: nat)
    requires |t| >= 4
    ensures n < 0x1_0000
  {
    var a, b, c, d := HexValue(t[0]), HexValue(t[1]), HexValue(t[2]), HexValue(t[3]);
    if a.Some? && b.Some? && c.Some? && d.Some?
    then
      HexBounds(t);
      a.value * 4096 + b.value * 256 + c.value * 16 + d.value
    else 0
  }

  lemma HexBounds(t: seq<byte>)
    ensures forall i :: 0 <= i < |t| && HexValue(t[i]).Some? ==> HexValue(t[i]).value < 16
  {
  }

  /** UTF-8 (section 3 of RFC 3629). */
  function Utf8(c: nat): (r: seq<byte>)
    requires c <= 0x10ffff
    ensures 1 <= |r| <= 4 && (c < 0x1_0000 ==> |r| <= 3)
  {
    if c < 0x80 then [c]
    else if c < 0x800 then [0xc0 + c / 64, 0x80 + c % 64]
    else if c < 0x1_0000 then [0xe0 + c / 4096, 0x80 + c / 64 % 64, 0x80 + c % 64]
    else [0xf0 + c / 262144, 0x80 + c / 4096 % 64, 0x80 + c / 64 % 64, 0x80 + c % 64]
  }

  datatype Literal = Literal(text: seq<byte>, length: nat)

  /** utf16_literal_to_utf8 at the start of `t`, of which `e` bytes lie before the closing quote. */
  function Utf16(t: seq<byte>, e: nat): (r: Option<Literal>)
    requires e <= |t|
    ensures r.Some? ==>
      && r.value.length <= e
      && ((r.value.length == 6 && 1 <= |r.value.text| <= 3) || (r.value.length == 12 && |r.value.text| == 4))
  {
    if e < 6 then None
    else
      var first := Hex4(t[2..]);
      if 0xdc00 <= first <= 0xdfff then None
      else if 0xd800 <= first <= 0xdbff then
        if e < 12 || t[6] != BACKSLASH || t[7] != LETTER_U then None
        else
          var second := Hex4(t[8..]);
          if second < 0xdc00 || second > 0xdfff then None
          else
            var c := 0x1_0000 + (first - 0xd800) * 1024 + (second - 0xdc00);
            Some(Literal(Utf8(c), 12))
      else Some(Literal(Utf8(first), 6))
  }

  // ---------- the second pass

  /** The byte that a two-character escape stands for. */
  function Unletter(b: byte): Option<byte> {
    if b == 98 then Some(8)
    else if b == 102 then Some(12)
    else if b == 110 then Some(10)
    else if b == 114 then Some(13)
    else if b == 116 then Some(9)
    else if b == QUOTE || b == BACKSLASH || b == SLASH then Some(b)
    else None
  }

  /** One turn of the second loop: the bytes written and the number of bytes read. */
  function Turn(t: seq<byte>, e: nat): (r: Option<Literal>)
    requires 0 < e < |t|
    ensures r.Some? ==>
      && (|| (r.value.length == 1 && |r.value.text| == 1 && t[0] != BACKSLASH)
          || (r.value.length == 2 && |r.value.text| == 1 && t[0] == BACKSLASH)
          || (r.value.length == 6 && 1 <= |r.value.text| <= 3)
          || (r.value.length == 12 && |r.value.text| == 4))
      && (r.value.length <= e || (e == 1 && r.value.length == 2))
  {
    if t[0] != BACKSLASH then Some(Literal([t[0]], 1))
    else if t[1] == LETTER_U then Utf16(t, e)
    else if Unletter(t[1]).None? then None
    else Some(Literal([Unletter(t[1]).value], 2))
  }

  /** The second pass over `t`, whose closing quote is at `e`: what is written, unless an escape is malformed. */
  function Decode(t: seq<byte>, e: nat): Option<seq<byte>>
    requires e < |t|
    decreases e
  {
    if e == 0 then Some([])
    else
      var r := Turn(t, e);
      if r.None? then None
      else if r.value.length > e then Some(r.value.text)
      else
        var rest := Decode(t[r.value.length..], e - r.value.length);
        if rest.None? then None else Some(r.value.text + rest.value)
  }

  datatype Parsed = Parsed(text: seq<byte>, rest: seq<byte>)

  /** parse_string at the start of `s`. */
  function ParseString(s: seq<byte>): Option<Parsed> {
    if s == [] || s[0] != QUOTE then None
    else
      var t := s[1..];
      var e := Close(t);
      if e.None? then None
      else
        var text := Decode(t, e.value);
        if text.None? then None else Some(Parsed(text.value, t[e.value + 1..]))
  }

  /** Where the second pass stops if it fails: at the escape that it cannot read. */
  function Stuck(t: seq<byte>, e: nat): (n: nat)
    requires e < |t|
    ensures n <= e
    decreases e
  {
    if e == 0 then 0
    else
      var r := Turn(t, e);
      if r.None? || r.value.length > e then 0 else r.value.length + Stuck(t[r.value.length..], e - r.value.length)
  }

  /** What is left of `s` where parse_string fails: behind the first byte if that is no quote or no quote closes the
      literal, and else from the escape on that cannot be read. */
  function LostString(s: seq<byte>): seq<byte>
    requires s != []
  {
    var t := s[1..];
    if s[0] != QUOTE || Close(t).None? then t else t[Stuck(t, Close(t).value)..]
  }

  // ---------- the first pass allocates enough for the second

  /** How much of the allocation is left when the second pass is at `t` and the first pass, in its own run,
      had `ahead` bytes of `t` already behind it. */
  function Room(t: seq<byte>, ahead: nat): (n: nat)
    requires ahead <= 1 && ahead <= |t| && Close(t[ahead..]).Some?
  {
    ahead + Close(t[ahead..]).value - Skips(t[ahead..])
  }

  /** The first pass over `t`, once past the `n` bytes before `v`, goes on `ahead` bytes into `v`, and has counted at
      most half of the bytes it has read, rounded up. */
  ghost predicate Reached(t: seq<byte>, v: seq<byte>, n: nat, ahead: nat) {
    && ahead <= 1 && ahead <= |v| && Close(t).Some? && Close(v[ahead..]).Some?
    && n + ahead + Close(v[ahead..]).value == Close(t).value
    && Skips(v[ahead..]) <= Skips(t) <= Skips(v[ahead..]) + (n + 1) / 2
  }

  lemma {:induction false} Advance(t: seq<byte>, n: nat) returns (ahead: nat)
    requires Close(t).Some? && n <= Close(t).value
    ensures Reached(t, t[n..], n, ahead)
    decreases n
  {
    CloseNext(t);
    hide Close, Skips, Reached;
    ReachedHere(t);
    if n == 0 {
      ahead := 0;
    } else if t[0] == BACKSLASH {
      if n == 1 {
        ahead := 1;
      } else {
        ahead := Advance(t[2..], n - 2);
        DropTwice(t, 2, n);
        ReachedMore(t, t[2..], t[n..], n - 2, 2, ahead);
      }
    } else {
      ahead := Advance(t[1..], n - 1);
      DropTwice(t, 1, n);
      ReachedMore(t, t[1..], t[n..], n - 1, 1, ahead);
    }
  }

  lemma DropTwice(t: seq<byte>, k: nat, n: nat)
    requires k <= n <= |t|
    ensures t[k..][n - k..] == t[n..]
  {
  }

  lemma ReachedHere(t: seq<byte>)
    requires Close(t).Some?
    ensures Reached(t, t[0..], 0, 0)
    ensures t != [] && t[0] == BACKSLASH ==> Reached(t, t[1..], 1, 1)
  {
    CloseNext(t);
    hide Close, Skips;
    assert t[0..][0..] == t;
    assert |t| > 1 ==> t[1..][1..] == t[2..];
  }

  lemma ReachedMore(t: seq<byte>, u: seq<byte>, v: seq<byte>, n: nat, k: nat, ahead: nat)
    requires Reached(u, v, n, ahead) && Close(t).Some? && 1 <= k <= 2
    requires Close(t).value == Close(u).value + k && Skips(t) == Skips(u) + (k - 1)
    ensures Reached(t, v, n + k, ahead)
  {
    hide Close, Skips;
  }

  /** One step of the first pass. */
  lemma CloseNext(t: seq<byte>)
    requires Close(t).Some?
    ensures t != [] && (Close(t).value > 0 <==> t[0] != QUOTE)
    ensures t[0] == BACKSLASH ==> |t| > 1 && Close(t[2..]).Some? && Close(t).value == Close(t[2..]).value + 2
    ensures t[0] == BACKSLASH ==> Skips(t) == 1 + Skips(t[2..])
    ensures t[0] != BACKSLASH && t[0] != QUOTE ==> Close(t[1..]).Some? && Close(t).value == Close(t[1..]).value + 1
    ensures t[0] != BACKSLASH && t[0] != QUOTE ==> Skips(t) == Skips(t[1..])
  {
  }

  /** The second pass is at `t` with `e` bytes to go, the first pass `ahead` bytes further. */
  ghost predicate InStep(t: seq<byte>, e: nat, ahead: nat) {
    ahead <= 1 && ahead <= |t| && Close(t[ahead..]).Some? && ahead + Close(t[ahead..]).value == e
  }

  /** One turn of the second pass writes no more than the first pass has set aside for the bytes it reads,
      even when the two passes disagree on where escapes begin. */
  lemma TurnFits(t: seq<byte>, e: nat, ahead: nat) returns (ahead': nat)
    requires 0 < e < |t| && InStep(t, e, ahead) && Turn(t, e).Some?
    ensures var l := Turn(t, e).value;
      && (l.length > e ==> |l.text| <= Room(t, ahead))
      && (l.length <= e ==> InStep(t[l.length..], e - l.length, ahead')
                            && |l.text| + Room(t[l.length..], ahead') <= Room(t, ahead))
  {
    var l := Turn(t, e).value;
    hide Turn;
    ahead' := 0;
    if ahead == 0 {
      assert t[0..] == t;
      ahead' := AlignedFits(t, e, l);
    } else {
      ahead' := ShiftedFits(t, e, l);
    }
  }

  /** The sizes that one turn can have. */
  ghost predicate TurnSize(t: seq<byte>, e: nat, l: Literal) {
    && (|| (l.length == 1 && |l.text| == 1 && t != [] && t[0] != BACKSLASH)
        || (l.length == 2 && |l.text| == 1 && t != [] && t[0] == BACKSLASH)
        || (l.length == 6 && 1 <= |l.text| <= 3)
        || (l.length == 12 && |l.text| == 4))
    && (l.length <= e || (e == 1 && l.length == 2))
  }

  lemma AlignedFits(t: seq<byte>, e: nat, l: Literal) returns (ahead': nat)
    requires Close(t) == Some(e) && e > 0 && TurnSize(t, e, l)
    ensures l.length <= e && InStep(t[l.length..], e - l.length, ahead')
    ensures |l.text| + Room(t[l.length..], ahead') <= e - Skips(t)
  {
    if l.length == 1 {
      ahead' := 0;
      assert t[1..][0..] == t[1..];
    } else {
      ahead' := Advance(t, l.length);
    }
  }

  lemma ShiftedFits(t: seq<byte>, e: nat, l: Literal) returns (ahead': nat)
    requires e > 0 && InStep(t, e, 1) && TurnSize(t, e, l)
    ensures l.length > e ==> |l.text| <= Room(t, 1)
    ensures l.length <= e ==> InStep(t[l.length..], e - l.length, ahead')
    ensures l.length <= e ==> |l.text| + Room(t[l.length..], ahead') <= Room(t, 1)
  {
    ahead' := 0;
    if l.length <= e {
      ahead' := Advance(t[1..], l.length - 1);
      assert t[1..][l.length - 1..] == t[l.length..];
    }
  }

  /** parse_string never writes past its allocation: whatever the input, the decoded text is no longer than the
      number of bytes up to the closing quote less the backslashes counted on the way. */
  lemma {:induction false} DecodeFits(t: seq<byte>, e: nat, ahead: nat)
    requires e < |t| && InStep(t, e, ahead)
    ensures Decode(t, e).Some? ==> |Decode(t, e).value| <= Room(t, ahead)
    decreases e
  {
    hide Turn, Close, Skips, Room;
    if e > 0 && Turn(t, e).Some? {
      var ahead' := TurnFits(t, e, ahead);
      var n := Turn(t, e).value.length;
      if n <= e {
        DecodeFits(t[n..], e - n, ahead');
      }
    }
  }

  // ---------- parse after print

  /** The closing quote of a printed string is found where the printer put it. */
  lemma {:induction false} CloseEscaped(s: seq<byte>, rest: seq<byte>)
    ensures Close(EscapeAll(s) + [QUOTE] + rest) == Some(|EscapeAll(s)|)
  {
    var t := EscapeAll(s) + [QUOTE] + rest;
    if s == [] {
      assert t[0] == QUOTE;
    } else {
      var x := Escape(s[0]);
      var t1 := EscapeAll(s[1..]) + [QUOTE] + rest;
      assert t == x + t1;
      CloseEscaped(s[1..], rest);
      CloseEscape(s[0], t1);
    }
  }

  lemma CloseEscape(b: byte, t: seq<byte>)
    requires Close(t).Some?
    ensures Close(Escape(b) + t) == Some(|Escape(b)| + Close(t).value)
  {
    hide Close;
    var x := Escape(b);
    EscapeShape(b);
    hide Escape;
    if |x| == 1 {
      PlainClose(x, t);
    } else {
      PlainClose(x[2..], t);
      CloseMark(x, t);
    }
  }

  lemma CloseMark(x: seq<byte>, t: seq<byte>)
    requires |x| > 1 && x[0] == BACKSLASH && Close(x[2..] + t).Some?
    ensures Close(x + t) == Some(2 + Close(x[2..] + t).value)
  {
    assert (x + t)[0] == BACKSLASH && (x + t)[2..] == x[2..] + t;
  }

  lemma EscapeShape(b: byte)
    ensures var x := Escape(b);
      && (|x| == 1 ==> x[0] != QUOTE && x[0] != BACKSLASH)
      && (|x| > 1 ==> x[0] == BACKSLASH && forall i :: 2 <= i < |x| ==> x[i] != QUOTE && x[i] != BACKSLASH)
  {
  }

  lemma {:induction false} PlainClose(x: seq<byte>, t: seq<byte>)
    requires Close(t).Some? && forall i :: 0 <= i < |x| ==> x[i] != QUOTE && x[i] != BACKSLASH
    ensures Close(x + t) == Some(|x| + Close(t).value)
  {
    hide Close;
    if x == [] {
      assert x + t == t;
    } else {
      PlainClose(x[1..], t);
      ClosePlain(x + t);
      assert (x + t)[1..] == x[1..] + t;
    }
  }

  lemma ClosePlain(t: seq<byte>)
    requires t != [] && t[0] != QUOTE && t[0] != BACKSLASH
    ensures Close(t) == if Close(t[1..]).None? then None else Some(Close(t[1..]).value + 1)
  {
  }

  /** One escaped byte is read back as that byte. */
  lemma TurnEscape(b: byte, t: seq<byte>, e: nat)
    requires b != 0 && |Escape(b)| <= e < |Escape(b)| + |t|
    ensures Turn(Escape(b) + t, e) == Some(Literal([b], |Escape(b)|))
  {
    var x := Escape(b);
    var u := x + t;
    assert forall i :: 0 <= i < |x| ==> u[i] == x[i];
    if |x| == 6 {
      var h := u[2..];
      assert h[0] == x[2] && h[1] == x[3] && h[2] == x[4] && h[3] == x[5];
      assert Hex4(h) == b;
    }
  }

  lemma {:induction false} DecodeEscaped(s: seq<byte>, t: seq<byte>)
    requires NulFree(s) && t != []
    ensures Decode(EscapeAll(s) + t, |EscapeAll(s)|) == Some(s)
  {
    if s != [] {
      var x, y := Escape(s[0]), EscapeAll(s[1..]);
      assert EscapeAll(s) == x + y;
      hide Decode, Turn, Escape, EscapeAll;
      assert x + y + t == x + (y + t);
      TurnEscape(s[0], y + t, |x| + |y|);
      DecodeEscaped(s[1..], t);
      DecodeFirst(x, y + t, |y|, s[0]);
      assert [s[0]] + s[1..] == s;
    }
  }

  lemma DecodeFirst(x: seq<byte>, u: seq<byte>, e: nat, b: byte)
    requires x != [] && e < |u| && Turn(x + u, |x| + e) == Some(Literal([b], |x|)) && Decode(u, e).Some?
    ensures Decode(x + u, |x| + e) == Some([b] + Decode(u, e).value)
  {
    hide Turn;
    assert (x + u)[|x|..] == u;
  }

  /** For every C string, parsing what the printer writes gives the string back and leaves what follows it. */
  lemma StringRoundTrip(s: seq<byte>, rest: seq<byte>)
    requires NulFree(s)
    ensures ParseString(PrintString(s) + rest) == Some(Parsed(s, rest))
  {
    var t := EscapeAll(s) + [QUOTE] + rest;
    assert (PrintString(s) + rest)[1..] == t;
    CloseEscaped(s, rest);
    assert t == EscapeAll(s) + ([QUOTE] + rest);
    DecodeEscaped(s, [QUOTE] + rest);
    assert t[|EscapeAll(s)| + 1..] == rest;
  }
}

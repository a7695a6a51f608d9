/** cJSON's parser as it runs: a buffer with an offset that advances, and string output written into an allocation
    whose size the first pass over the literal has counted. */
module JsonReader {
  import opened Common
  import opened JsonString
  import opened Json
  import opened JsonRoundTrip

  // ---------- \u literals

  /** parse_hex4 on the four bytes at `p`. */
  method ParseHex4(s: seq<byte>, p: nat) returns (h: nat)
    requires p + 4 <= |s|
    ensures h == Hex4(s[p..])
  {
    h := 0;
    var i := 0;
    var a, b, c, d := HexValue(s[p]), HexValue(s[p + 1]), HexValue(s[p + 2]), HexValue(s[p + 3]);
    assert s[p..][0] == s[p] && s[p..][1] == s[p + 1] && s[p..][2] == s[p + 2] && s[p..][3] == s[p + 3];
    while i < 4
      invariant 0 <= i <= 4
      invariant i > 0 ==> a.Some?
      invariant i > 1 ==> b.Some?
      invariant i > 2 ==> c.Some?
      invariant i > 3 ==> d.Some?
      invariant i == 0 ==> h == 0
      invariant i == 1 ==> h == a.value * 16
      invariant i == 2 ==> h == a.value * 256 + b.value * 16
      invariant i == 3 ==> h == a.value * 4096 + b.value * 256 + c.value * 16
      invariant i == 4 ==> h == a.value * 4096 + b.value * 256 + c.value * 16 + d.value
    {
      var digit := HexValue(s[p + i]);
      if digit.None? {
        return 0;
      }
      h := h + digit.value;
      if i < 3 {
        h := h * 16;
      }
      i := i + 1;
    }
  }

  /** The UTF-8 form of a code point, written from its last byte to its first. */
  method WriteUtf8(codepoint: nat, output: array<byte>, at: nat) returns (end: nat)
    requires codepoint <= 0x10ffff && at + |Utf8(codepoint)| <= output.Length
    modifies output
    ensures end == at + |Utf8(codepoint)|
    ensures output[..end] == old(output[..at]) + Utf8(codepoint)
  {
    Utf8Shifted(codepoint);
    var length, mark := 4, 0xf0;
    if codepoint < 0x80 {
      length, mark := 1, 0;
    } else if codepoint < 0x800 {
      length, mark := 2, 0xc0;
    } else if codepoint < 0x1_0000 {
      length, mark := 3, 0xe0;
    }
    hide Utf8, Shifted;
    WriteBytes(codepoint, length, mark, Utf8(codepoint), output, at);
    end := at + length;
  }

  /** `u` is `mark` and six bits of `c` in each of its other bytes. */
  ghost predicate Packs(c: nat, mark: byte, u: seq<byte>) {
    && u != [] && u[0] == mark + Shifted(c, |u| - 1)
    && forall i :: 0 < i < |u| ==> u[i] == 0x80 + Shifted(c, |u| - 1 - i) % 64
  }

  method WriteBytes(codepoint: nat, length: nat, mark: byte, ghost u: seq<byte>, output: array<byte>, at: nat)
    requires length == |u| && Packs(codepoint, mark, u) && at + length <= output.Length
    modifies output
    ensures output[..at + length] == old(output[..at]) + u
  {
    hide Shifted;
    ShiftedStep(codepoint, 0);
    var rest, position := codepoint, length - 1;
    while position > 0
      invariant 0 <= position < length
      invariant rest == Shifted(codepoint, length - 1 - position)
      invariant output[..at] == old(output[..at])
      invariant output[at + position + 1..at + length] == u[position + 1..]
    {
      output[at + position] := 0x80 + rest % 64;
      assert output[at + position..at + length] == [u[position]] + u[position + 1..];
      ShiftedStep(codepoint, length - 1 - position);
      rest := rest / 64;
      position := position - 1;
    }
    output[at] := mark + rest;
    assert output[at + 1..at + length] == u[1..];
  }

  /** `c` shifted right by `6 * n` bits. */
  function Shifted(c: nat, n: nat): nat {
    if n == 0 then c else Shifted(c, n - 1) / 64
  }

  lemma ShiftedStep(c: nat, n: nat)
    ensures Shifted(c, 0) == c && Shifted(c, n + 1) == Shifted(c, n) / 64
  {
  }

  lemma Utf8Shifted(c: nat)
    requires c <= 0x10ffff
    ensures |Utf8(c)| == if c < 0x80 then 1 else if c < 0x800 then 2 else if c < 0x1_0000 then 3 else 4
    ensures Packs(c, if c < 0x80 then 0 else if c < 0x800 then 0xc0 else if c < 0x1_0000 then 0xe0 else 0xf0, Utf8(c))
  {
    assert Shifted(c, 0) == c && Shifted(c, 1) == c / 64;
    assert Shifted(c, 2) == c / 64 / 64 == c / 4096;
    assert Shifted(c, 3) == c / 64 / 64 / 64 == c / 262144;
  }

  /** Decoding a UTF-8 sequence, by the table in section 3 of RFC 3629. */
  function Utf8Value(u: seq<byte>): nat
    requires 1 <= |u| <= 4 && forall i :: 1 <= i < |u| ==> 0x80 <= u[i] < 0xc0
    requires |u| > 1 ==> u[0] >= (if |u| == 2 then 0xc0 else if |u| == 3 then 0xe0 else 0xf0)
  {
    var mark := if |u| == 1 then 0 else if |u| == 2 then 0xc0 else if |u| == 3 then 0xe0 else 0xf0;
    Tail(u[0] - mark, u[1..])
  }

  function Tail(high: nat, u: seq<byte>): nat
    requires forall i :: 0 <= i < |u| ==> 0x80 <= u[i]
    decreases |u|
  {
    if u == [] then high else Tail(high * 64 + (u[0] - 0x80), u[1..])
  }

  /** The encoder's output is well formed, shortest, and stands for the code point it was given. */
  lemma Utf8Decodes(c: nat)
    requires c <= 0x10ffff
    ensures var u := Utf8(c);
      && (forall i :: 1 <= i < |u| ==> 0x80 <= u[i] < 0xc0)
      && (|u| == 1 ==> u[0] < 0x80) && (|u| == 2 ==> 0xc2 <= u[0] < 0xe0)
      && (|u| == 3 ==> 0xe0 <= u[0] < 0xf0 && (u[0] == 0xe0 ==> u[1] >= 0xa0))
      && (|u| == 4 ==> 0xf0 <= u[0] <= 0xf4 && (u[0] == 0xf0 ==> u[1] >= 0x90) && (u[0] == 0xf4 ==> u[1] < 0x90))
      && Utf8Value(u) == c
  {
    var u := Utf8(c);
    assert c / 4096 == c / 64 / 64 && c / 262144 == c / 64 / 64 / 64;
    TailBytes(u[0] - (if |u| == 1 then 0 else if |u| == 2 then 0xc0 else if |u| == 3 then 0xe0 else 0xf0), u);
  }

  lemma TailBytes(high: nat, u: seq<byte>)
    requires 1 <= |u| <= 4 && forall i :: 0 < i < |u| ==> 0x80 <= u[i]
    ensures |u| == 1 ==> Tail(high, u[1..]) == high
    ensures |u| == 2 ==> Tail(high, u[1..]) == high * 64 + (u[1] - 0x80)
    ensures |u| == 3 ==> Tail(high, u[1..]) == (high * 64 + (u[1] - 0x80)) * 64 + (u[2] - 0x80)
    ensures |u| == 4 ==> Tail(high, u[1..]) == ((high * 64 + (u[1] - 0x80)) * 64 + (u[2] - 0x80)) * 64 + (u[3] - 0x80)
  {
    if |u| > 1 {
      var h := high * 64 + (u[1] - 0x80);
      assert u[1..][1..] == u[2..];
      assert Tail(high, u[1..]) == Tail(h, u[2..]);
      if |u| > 2 {
        assert u[2..][1..] == u[3..];
        assert Tail(h, u[2..]) == Tail(h * 64 + (u[2] - 0x80), u[3..]);
        assert |u| == 4 ==> u[3..][1..] == [];
      }
    }
  }

  /** utf16_literal_to_utf8 on the literal at `p`, with the closing quote at `end`: the number of bytes read, zero on
      failure, and the new end of the output. */
  method WriteUtf16(s: seq<byte>, p: nat, end: nat, output: array<byte>, at: nat) returns (length: nat, at': nat)
    requires p <= end <= |s| && at <= output.Length
    requires var r := Utf16(s[p..], end - p); r.Some? ==> at + |r.value.text| <= output.Length
    modifies output
    ensures var r := Utf16(s[p..], end - p);
      && (r.None? ==> length == 0)
      && (r.Some? ==> length == r.value.length && at' == at + |r.value.text|
                      && output[..at'] == old(output[..at]) + r.value.text)
  {
    hide Hex4, Utf8;
    length, at' := 0, at;
    if end - p < 6 {
      return;
    }
    var t := s[p..];
    assert t[2..] == s[p + 2..];
    var first := ParseHex4(s, p + 2);
    if 0xdc00 <= first <= 0xdfff {
      return;
    }
    var codepoint := first;
    length := 6;
    if 0xd800 <= first <= 0xdbff {
      length := 0;
      if end - p < 12 || s[p + 6] != BACKSLASH || s[p + 7] != LETTER_U {
        return;
      }
      assert t[8..] == s[p + 8..];
      var second := ParseHex4(s, p + 8);
      if second < 0xdc00 || second > 0xdfff {
        return;
      }
      codepoint := 0x1_0000 + (first - 0xd800) * 1024 + (second - 0xdc00);
      length := 12;
    }
    at' := WriteUtf8(codepoint, output, at);
  }

  /** One turn of the second loop of parse_string. */
  method WriteTurn(s: seq<byte>, p: nat, end: nat, output: array<byte>, at: nat) returns (ok: bool, read: nat, at': nat)
    requires p < end < |s| && at <= output.Length
    requires var r := Turn(s[p..], end - p); r.Some? ==> at + |r.value.text| <= output.Length
    modifies output
    ensures var r := Turn(s[p..], end - p);
      && ok == r.Some?
      && (ok ==> read == r.value.length && at' == at + |r.value.text|
                 && output[..at'] == old(output[..at]) + r.value.text)
  {
    hide Utf16;
    ok, read, at' := false, 0, at;
    assert s[p..][0] == s[p] && s[p..][1] == s[p + 1];
    if s[p] != BACKSLASH {
      output[at] := s[p];
      ok, read, at' := true, 1, at + 1;
    } else if s[p + 1] == LETTER_U {
      read, at' := WriteUtf16(s, p, end, output, at);
      ok := read != 0;
    } else {
      var b := Unletter(s[p + 1]);
      if b.Some? {
        output[at] := b.value;
        ok, read, at' := true, 2, at + 1;
      }
    }
  }

  // ---------- facts about one turn of each loop

  /** The first pass over `t` has gone `n` bytes and counted `skipped` backslashes. */
  ghost predicate FirstPass(t: seq<byte>, n: nat, skipped: nat) {
    n <= |t| && var c := Close(t[n..]);
    if c.None? then Close(t) == None
    else Close(t) == Some(n + c.value) && Skips(t) == skipped + Skips(t[n..])
  }

  lemma FirstPassStarts(t: seq<byte>)
    ensures FirstPass(t, 0, 0)
  {
    assert t[0..] == t;
  }

  lemma FirstPassGoesOn(s: seq<byte>, p: nat, e: nat, skipped: nat)
    requires p <= e < |s| && FirstPass(s[p..], e - p, skipped) && s[e] != QUOTE
    ensures s[e] != BACKSLASH ==> FirstPass(s[p..], e + 1 - p, skipped)
    ensures s[e] == BACKSLASH && e + 1 < |s| ==> FirstPass(s[p..], e + 2 - p, skipped + 1)
    ensures s[e] == BACKSLASH && e + 1 == |s| ==> Measured(s[p..], p, None, skipped)
  {
    hide Close, Skips;
    assert s[p..][e - p..] == s[e..];
    assert s[p..][e + 1 - p..] == s[e + 1..];
    assert e + 1 < |s| ==> s[p..][e + 2 - p..] == s[e + 2..];
    CloseUnfold(s, e);
  }

  lemma CloseUnfold(s: seq<byte>, e: nat)
    requires e < |s| && s[e] != QUOTE
    ensures s[e] != BACKSLASH ==> Further(s[e..], s[e + 1..], 1, 0)
    ensures s[e] == BACKSLASH && e + 1 < |s| ==> Further(s[e..], s[e + 2..], 2, 1)
    ensures s[e] == BACKSLASH && e + 1 == |s| ==> Close(s[e..]) == None
  {
    assert s[e..][1..] == s[e + 1..];
    assert e + 1 < |s| ==> s[e..][2..] == s[e + 2..];
  }

  /** The first pass over `t` reads `n` bytes, counts `k` backslashes and goes on at `u`. */
  ghost predicate Further(t: seq<byte>, u: seq<byte>, n: nat, k: nat) {
    match Close(u)
    case None => Close(t) == None
    case Some(c) => Close(t) == Some(n + c) && Skips(t) == k + Skips(u)
  }

  lemma FirstPassEnds(s: seq<byte>, p: nat, e: nat, skipped: nat)
    requires p <= e <= |s| && FirstPass(s[p..], e - p, skipped)
    ensures e == |s| ==> Measured(s[p..], p, None, skipped)
    ensures e < |s| && s[e] == QUOTE ==> Measured(s[p..], p, Some(e), skipped)
  {
    assert s[p..][e - p..] == s[e..];
  }

  /** The second pass over `t`, whose closing quote is at `e`, has read `i` bytes and written `out`, and what is left
      of the allocation is enough for what is left of the literal. */
  ghost predicate SecondPass(t: seq<byte>, e: nat, i: nat, out: seq<byte>, ahead: nat) {
    && Close(t) == Some(e) && i <= e && InStep(t[i..], e - i, ahead)
    && |out| + Room(t[i..], ahead) <= e - Skips(t)
    && Stuck(t, e) == i + Stuck(t[i..], e - i)
    && var r := Decode(t[i..], e - i); Decode(t, e) == if r.None? then None else Some(out + r.value)
  }

  lemma SecondPassStarts(t: seq<byte>, e: nat, size: nat)
    requires Allocated(t, e, size)
    ensures size > 0 && SecondPass(t, e, 0, [], 0)
  {
    hide Decode, Stuck;
    assert t[0..] == t;
    if Decode(t, e).Some? {
      assert [] + Decode(t, e).value == Decode(t, e).value;
    }
  }

  lemma TurnedFacts(t: seq<byte>, e: nat, i: nat, out: seq<byte>, l: Option<Literal>, ahead: nat, size: nat)
    requires Allocated(t, e, size) && Turned(t, e, i, out, l, ahead)
    ensures l.None? ==> Written(t, e, false, out) && Stuck(t, e) == i
    ensures l.Some? ==> |out| + |l.value.text| < size
    ensures l.Some? && i + l.value.length <= e ==> SecondPass(t, e, i + l.value.length, out + l.value.text, ahead)
    ensures l.Some? && i + l.value.length > e ==> Written(t, e, true, out + l.value.text)
  {
    hide Decode, Close, Skips, SecondPass, Stuck;
  }

  /** What one turn with result `l` leads to. */
  ghost predicate Turned(t: seq<byte>, e: nat, i: nat, out: seq<byte>, l: Option<Literal>, ahead: nat) {
    match l
    case None => Close(t) == Some(e) && Decode(t, e) == None && Stuck(t, e) == i
    case Some(x) =>
      && Close(t) == Some(e) && |out| + |x.text| <= e - Skips(t)
      && (i + x.length <= e ==> SecondPass(t, e, i + x.length, out + x.text, ahead))
      && (i + x.length > e ==> Decode(t, e) == Some(out + x.text))
  }

  lemma SecondPassGoesOn(t: seq<byte>, e: nat, i: nat, out: seq<byte>, ahead: nat) returns (ahead': nat)
    requires SecondPass(t, e, i, out, ahead) && i < e
    ensures Turned(t, e, i, out, Turn(t[i..], e - i), ahead')
  {
    hide Turn, Close, Skips, Room, Decode, Stuck;
    ahead' := 0;
    DecodeStep(t, e, i, out);
    StuckStep(t, e, i);
    if Turn(t[i..], e - i).Some? {
      ahead' := TurnFits(t[i..], e - i, ahead);
      var n := Turn(t[i..], e - i).value.length;
      assert i + n <= e ==> t[i..][n..] == t[i + n..];
    }
  }

  lemma StuckStep(t: seq<byte>, e: nat, i: nat)
    requires i < e < |t|
    ensures var l, n := Turn(t[i..], e - i), Stuck(t[i..], e - i);
      && (l.None? ==> n == 0)
      && (l.Some? && i + l.value.length <= e ==>
            i + n == i + l.value.length + Stuck(t[i + l.value.length..], e - i - l.value.length))
  {
    hide Turn;
    var l := Turn(t[i..], e - i);
    assert l.Some? && i + l.value.length <= e ==> t[i..][l.value.length..] == t[i + l.value.length..];
  }

  lemma DecodeStep(t: seq<byte>, e: nat, i: nat, out: seq<byte>)
    requires i < e < |t|
    ensures var l, d := Turn(t[i..], e - i), Decode(t[i..], e - i);
      && (l.None? ==> d == None)
      && (l.Some? && i + l.value.length > e ==> d == Some(l.value.text))
      && (l.Some? && i + l.value.length <= e ==>
            var n := i + l.value.length; var r := Decode(t[n..], e - n);
            d.Some? == r.Some? && (r.Some? ==> out + d.value == out + l.value.text + r.value))
  {
    hide Turn;
    var l := Turn(t[i..], e - i);
    if l.Some? && i + l.value.length <= e {
      var n := l.value.length;
      assert t[i..][n..] == t[i + n..];
      var r := Decode(t[i + n..], e - i - n);
      assert r.Some? ==> out + (l.value.text + r.value) == out + l.value.text + r.value;
    }
  }

  lemma SecondPassEnds(t: seq<byte>, e: nat, out: seq<byte>, ahead: nat)
    requires SecondPass(t, e, e, out, ahead)
    ensures Written(t, e, true, out)
  {
    hide Room, Skips, Close;
    assert out + [] == out;
  }

  /** What the first pass over `t`, which starts at `p`, has found. */
  ghost predicate Measured(t: seq<byte>, p: nat, end: Option<nat>, skipped: nat) {
    match Close(t)
    case None => end == None
    case Some(e) => end == Some(p + e) && skipped == Skips(t)
  }

  /** There is room for the text that the first pass has counted, and a terminator. */
  ghost predicate Allocated(t: seq<byte>, e: nat, size: nat) { Close(t) == Some(e) && size > e - Skips(t) }

  /** What the second pass has done. */
  ghost predicate Written(t: seq<byte>, e: nat, ok: bool, text: seq<byte>) {
    Close(t) == Some(e) && Decode(t, e).Some? == ok && (ok ==> Decode(t, e).value == text)
  }

  /** The body of the second loop, over the literal that starts at `p`. */
  method PassTurn(s: seq<byte>, ghost p: nat, input: nat, end: nat, output: array<byte>, length: nat, ghost ahead: nat)
    returns (ok: bool, input': nat, length': nat, ghost ahead': nat)
    requires p <= input < end < |s| && length < output.Length && Allocated(s[p..], end - p, output.Length)
    requires SecondPass(s[p..], end - p, input - p, output[..length], ahead)
    modifies output
    ensures input <= input' <= |s| && length' < output.Length
    ensures !ok ==> Written(s[p..], end - p, false, output[..length']) && input' == p + Stuck(s[p..], end - p)
    ensures ok ==> input < input'
    ensures ok && input' <= end ==> SecondPass(s[p..], end - p, input' - p, output[..length'], ahead')
    ensures ok && input' > end ==> Written(s[p..], end - p, true, output[..length'])
  {
    hide SecondPass, Turned, Allocated, Turn, Stuck;
    ghost var out := output[..length];
    ahead' := SecondPassGoesOn(s[p..], end - p, input - p, out, ahead);
    assert s[p..][input - p..] == s[input..];
    TurnedFacts(s[p..], end - p, input - p, out, Turn(s[input..], end - input), ahead', output.Length);
    hide Written;
    var read;
    ok, read, length' := WriteTurn(s, input, end, output, length);
    if !ok {
      input', length' := input, 0;
      NotWritten(s[p..], end - p, out, output[..0]);
      return;
    }
    input' := input + read;
  }

  lemma NotWritten(t: seq<byte>, e: nat, x: seq<byte>, y: seq<byte>)
    requires Written(t, e, false, x)
    ensures Written(t, e, false, y)
  {
  }

  /** The second pass over the literal at `p` writes its text into the allocation. Every write lies inside it. */
  method WriteString(s: seq<byte>, p: nat, end: nat, output: array<byte>) returns (ok: bool, length: nat, input: nat)
    requires p <= end < |s| && Allocated(s[p..], end - p, output.Length)
    modifies output
    ensures p <= input <= |s| && length < output.Length
    ensures ok ==> output[length] == 0
    ensures Written(s[p..], end - p, ok, output[..length]) && (!ok ==> input == p + Stuck(s[p..], end - p))
  {
    hide SecondPass, Written, Allocated, Stuck;
    ghost var ahead := 0;
    SecondPassStarts(s[p..], end - p, output.Length);
    input, length := p, 0;
    assert output[..0] == [];
    while input < end
      invariant p <= input <= |s| && length < output.Length
      invariant input <= end ==> SecondPass(s[p..], end - p, input - p, output[..length], ahead)
      invariant input > end ==> Written(s[p..], end - p, true, output[..length])
      decreases |s| - input
    {
      ok, input, length, ahead := PassTurn(s, p, input, end, output, length, ahead);
      if !ok {
        return;
      }
    }
    if input == end {
      SecondPassEnds(s[p..], end - p, output[..length], ahead);
    }
    output[length] := 0;
    ok := true;
  }

  /** What parse_string has done at `p`: the text, and the offset behind the closing quote. */
  ghost predicate StringRead(s: seq<byte>, p: nat, r: Option<seq<byte>>, next: nat) {
    && p < |s| && next <= |s|
    && match ParseString(s[p..])
       case None => r == None && s[next..] == LostString(s[p..])
       case Some(x) => r == Some(x.text) && s[next..] == x.rest && Terminated(s[next..])
  }

  /** parse_string at `p`: the two passes. A failure leaves the offset where the reading stopped. */
  method ReadString(s: seq<byte>, p: nat) returns (r: Option<seq<byte>>, next: nat)
    requires Terminated(s) && p < |s|
    ensures StringRead(s, p, r, next)
  {
    hide StringRead, Measured, Allocated, Written, Stuck;
    NotString(s, p);
    if s[p] != QUOTE {
      return None, p + 1;
    }
    var end, skipped := MeasureString(s, p + 1);
    Closed(s, p, end, skipped);
    if end.None? {
      return None, p + 1;
    }
    var allocation := end.value - p - skipped;
    var output := new byte[allocation + 1];
    var ok, length, input := WriteString(s, p + 1, end.value, output);
    StringDone(s, p, end.value, ok, output[..length], input);
    if !ok {
      return None, input;
    }
    next := end.value + 1;
    r := Some(output[..length]);
  }

  lemma NotString(s: seq<byte>, p: nat)
    requires Terminated(s) && p < |s|
    ensures s[p] != QUOTE ==> StringRead(s, p, None, p + 1)
  {
    assert s[p..][1..] == s[p + 1..];
  }

  /** What the first pass has found: no closing quote, or an allocation that is large enough. */
  lemma Closed(s: seq<byte>, p: nat, end: Option<nat>, skipped: nat)
    requires Terminated(s) && p < |s| && s[p] == QUOTE && Measured(s[p + 1..], p + 1, end, skipped)
    ensures end.None? ==> StringRead(s, p, None, p + 1)
    ensures end.Some? ==> p < end.value < |s| && skipped <= end.value - p
    ensures end.Some? ==> Allocated(s[p + 1..], end.value - p - 1, end.value - p - skipped + 1)
  {
    hide Decode;
    assert s[p..][1..] == s[p + 1..];
  }

  lemma StringDone(s: seq<byte>, p: nat, end: nat, ok: bool, text: seq<byte>, input: nat)
    requires Terminated(s) && p < end < |s| && s[p] == QUOTE
    requires !ok ==> input == p + 1 + Stuck(s[p + 1..], end - p - 1)
    requires Written(s[p + 1..], end - p - 1, ok, text)
    ensures StringRead(s, p, if ok then Some(text) else None, if ok then end + 1 else input)
  {
    hide StringRead, Written, Stuck;
    if ok {
      StringGood(s, p, end, text);
    } else {
      StringBad(s, p, end, text, input);
    }
  }

  lemma StringGood(s: seq<byte>, p: nat, end: nat, text: seq<byte>)
    requires Terminated(s) && p < end < |s| && s[p] == QUOTE && Written(s[p + 1..], end - p - 1, true, text)
    ensures StringRead(s, p, Some(text), end + 1)
  {
    hide Decode, Close, JsonString.LostString;
    Behind(s, p, 1);
    Behind(s, p + 1, end - p);
    assert s[p + 1..][end - p - 1] == s[end];
    StringRest(s[p..]);
  }

  lemma StringBad(s: seq<byte>, p: nat, end: nat, text: seq<byte>, input: nat)
    requires Terminated(s) && p < end < |s| && s[p] == QUOTE && Written(s[p + 1..], end - p - 1, false, text)
    requires input == p + 1 + Stuck(s[p + 1..], end - p - 1)
    ensures StringRead(s, p, None, input)
  {
    hide Decode, Close, Stuck, JsonString.ParseString, JsonString.LostString, Terminated;
    var e := end - p - 1;
    Behind(s, p, 1);
    Behind(s, p + 1, input - p - 1);
    LostAt(s[p..], e);
  }

  lemma LostAt(t: seq<byte>, e: nat)
    requires t != [] && t[0] == QUOTE && Close(t[1..]) == Some(e) && Decode(t[1..], e) == None
    ensures ParseString(t) == None && LostString(t) == t[1..][Stuck(t[1..], e)..]
  {
    hide Decode, Close, Stuck;
  }

  lemma Behind(s: seq<byte>, p: nat, k: nat)
    requires p + k <= |s|
    ensures s[p..][k..] == s[p + k..]
  {
  }

  /** The first pass: where the literal at `p` ends and how many backslashes it has. */
  method MeasureString(s: seq<byte>, p: nat) returns (end: Option<nat>, skipped: nat)
    requires p <= |s|
    ensures Measured(s[p..], p, end, skipped)
  {
    hide FirstPass, Measured;
    var e := p;
    skipped := 0;
    FirstPassStarts(s[p..]);
    while e < |s| && s[e] != QUOTE
      invariant p <= e <= |s|
      invariant FirstPass(s[p..], e - p, skipped)
      decreases |s| - e
    {
      FirstPassGoesOn(s, p, e, skipped);
      if s[e] == BACKSLASH {
        if e + 1 >= |s| {
          return None, skipped;
        }
        skipped := skipped + 1;
        e := e + 1;
      }
      e := e + 1;
    }
    FirstPassEnds(s, p, e, skipped);
    end := if e >= |s| then None else Some(e);
  }

  // ---------- white space and numbers

  /** buffer_skip_whitespace from `p`. */
  method SkipWhite(s: seq<byte>, p: nat) returns (next: nat)
    requires Terminated(s) && p < |s|
    ensures Skipped(s, p, next)
  {
    hide SkipWs;
    next := p;
    SkipUnfold(s, p);
    while next < |s| && s[next] <= 32
      invariant p <= next <= |s|
      invariant SkipWs(s[p..]) == if next < |s| then SkipWs(s[next..]) else s[|s| - 1..]
    {
      SkipUnfold(s, next);
      next := next + 1;
    }
    if next == |s| {
      next := next - 1;
    } else {
      SkipUnfold(s, next);
    }
  }

  ghost predicate Skipped(s: seq<byte>, p: nat, next: nat) {
    Terminated(s) && p <= next < |s| && s[next..] == SkipWs(s[p..])
  }

  lemma SkipUnfold(s: seq<byte>, p: nat)
    requires Terminated(s) && p < |s|
    ensures SkipWs(s[p..]) == if p + 1 < |s| && s[p] <= 32 then SkipWs(s[p + 1..]) else s[p..]
  {
    assert s[p..][1..] == s[p + 1..];
  }

  /** What parse_value, parse_number, parse_array and parse_object do at `p`: the item, and the offset behind it. */
  ghost predicate ValueRead(s: seq<byte>, p: nat, depth: nat, r: Option<Json>, next: nat) {
    && Terminated(s) && p < |s| && next <= |s|
    && match ParseValue(s[p..], depth)
       case None => r == None && s[next..] == LostValue(s[p..], depth)
       case Some(x) => r == Some(x.value) && p < next < |s| && s[next..] == x.rest
  }

  /** The bytes at `p` that are handed to strtod, at most 63. */
  method CopyNumber(s: seq<byte>, p: nat) returns (i: nat)
    requires p <= |s|
    ensures i == Run(s[p..], 63)
  {
    hide Run;
    i := 0;
    assert s[p + 0..] == s[p..];
    while i < 63 && p + i < |s| && NumberByte(s[p + i])
      invariant 0 <= i <= 63 && p + i <= |s|
      invariant Run(s[p..], 63) == i + Run(s[p + i..], 63 - i)
    {
      RunUnfold(s, p + i, 63 - i);
      i := i + 1;
    }
    RunUnfold(s, p + i, 63 - i);
  }

  lemma RunUnfold(s: seq<byte>, p: nat, max: nat)
    requires p <= |s|
    ensures Run(s[p..], max) == if max == 0 || p == |s| || !NumberByte(s[p]) then 0 else 1 + Run(s[p + 1..], max - 1)
  {
    assert p < |s| ==> s[p..][1..] == s[p + 1..];
  }

  /** parse_number */
  method ReadNumber(s: seq<byte>, p: nat, ghost depth: nat) returns (r: Option<Json>, next: nat)
    requires Terminated(s) && p < |s| && (s[p] == MINUS || Digit(s[p]))
    ensures ValueRead(s, p, depth, r, next)
  {
    hide Strtod, Run, ParseValue;
    var i := CopyNumber(s, p);
    var n := Strtod(s[p..p + i]);
    NumberUnfold(s, p, depth);
    assert s[p..][..i] == s[p..p + i];
    if n == 0 {
      return None, p;
    }
    next := p + n;
    r := Some(Number(s[p..next]));
    assert s[p..][..n] == s[p..next] && s[p..][n..] == s[next..];
  }

  lemma NumberUnfold(s: seq<byte>, p: nat, depth: nat)
    requires Terminated(s) && p < |s| && (s[p] == MINUS || Digit(s[p]))
    ensures ParseValue(s[p..], depth) == ParseNumber(s[p..]) && LostValue(s[p..], depth) == s[p..]
  {
    hide ParseNumber;
    assert s[p..][0] == s[p];
  }

  // ---------- lists of children

  /** The list with one more child at its end. */
  function Append(k: Kids, key: seq<byte>, v: Json): Kids {
    match k
    case End => Kid(key, v, End)
    case Kid(a, b, next) => Kid(a, b, Append(next, key, v))
  }

  function Concat(k: Kids, l: Kids): Kids {
    match k
    case End => l
    case Kid(a, b, next) => Kid(a, b, Concat(next, l))
  }

  lemma AppendConcat(k: Kids, key: seq<byte>, v: Json, l: Kids)
    ensures Concat(Append(k, key, v), l) == Concat(k, Kid(key, v, l))
  {
  }

  lemma ConcatEnd(k: Kids)
    ensures Concat(k, End) == k
  {
  }

  /** `list` has been read from `r`, and `more` is what is still to be read. */
  ghost predicate Ahead(r: Option<KidsResult>, list: Kids, more: Option<KidsResult>) {
    r == if more.None? then None else Some(KidsResult(Concat(list, more.value.kids), more.value.rest))
  }

  /** One more child has been read; what follows it is in `more`. */
  lemma AheadMore(r: Option<KidsResult>, list: Kids, key: seq<byte>, v: Json, here: Option<KidsResult>,
    more: Option<KidsResult>)
    requires Ahead(r, list, here)
    requires here == if more.None? then None else Some(KidsResult(Kid(key, v, more.value.kids), more.value.rest))
    ensures Ahead(r, Append(list, key, v), more)
  {
    if more.Some? {
      AppendConcat(list, key, v, more.value.kids);
    }
  }

  /** The last child has been read. */
  lemma AheadLast(r: Option<KidsResult>, list: Kids, key: seq<byte>, v: Json, here: Option<KidsResult>, rest: seq<byte>)
    requires Ahead(r, list, here) && here == Some(KidsResult(Kid(key, v, End), rest))
    ensures r == Some(KidsResult(Append(list, key, v), rest))
  {
    AppendConcat(list, key, v, End);
    ConcatEnd(Append(list, key, v));
  }

  /** The element loop, from `p` to the offset `at` before the next element, has read `list`. */
  ghost predicate ItemsPass(s: seq<byte>, p: nat, depth: nat, list: Kids, at: nat) {
    && Terminated(s) && p <= at < |s| && Ahead(ParseItems(s[p..], depth), list, ParseItems(s[at..], depth))
    && LostItems(s[p..], depth) == LostItems(s[at..], depth)
  }

  ghost predicate MembersPass(s: seq<byte>, p: nat, depth: nat, list: Kids, at: nat) {
    && Terminated(s) && p <= at < |s| && Ahead(ParseMembers(s[p..], depth), list, ParseMembers(s[at..], depth))
    && LostMembers(s[p..], depth) == LostMembers(s[at..], depth)
  }

  /** The outcome of the element loop from `p`. */
  ghost predicate ItemsRead(s: seq<byte>, p: nat, depth: nat, r: Option<Kids>, next: nat) {
    && Terminated(s) && p < |s| && next <= |s|
    && match ParseItems(s[p..], depth)
       case None => r == None && s[next..] == LostItems(s[p..], depth)
       case Some(x) => r == Some(x.kids) && p < next < |s| && s[next..] == x.rest
  }

  ghost predicate MembersRead(s: seq<byte>, p: nat, depth: nat, r: Option<Kids>, next: nat) {
    && Terminated(s) && p < |s| && next <= |s|
    && match ParseMembers(s[p..], depth)
       case None => r == None && s[next..] == LostMembers(s[p..], depth)
       case Some(x) => r == Some(x.kids) && p < next < |s| && s[next..] == x.rest
  }

  lemma PassStarts(s: seq<byte>, p: nat, depth: nat)
    requires Terminated(s) && p < |s|
    ensures ItemsPass(s, p, depth, End, p) && MembersPass(s, p, depth, End, p)
  {
    hide ParseItems, ParseMembers, LostItems, LostMembers;
  }

  /** One element: blanks up to `w`, the value up to `n`, blanks up to `q`. */
  lemma ItemTurn(s: seq<byte>, p: nat, depth: nat, list: Kids, at: nat, w: nat, v: Json, n: nat, q: nat)
    requires ItemsPass(s, p, depth, list, at) && Skipped(s, at, w)
    requires ValueRead(s, w, depth, Some(v), n) && Skipped(s, n, q)
    ensures s[q] == COMMA ==> ItemsPass(s, p, depth, Append(list, [], v), q + 1)
    ensures s[q] == CLOSE_ARRAY ==> ItemsRead(s, p, depth, Some(Append(list, [], v)), q + 1)
    ensures s[q] != COMMA && s[q] != CLOSE_ARRAY ==> ItemsRead(s, p, depth, None, q)
    ensures s[q] == COMMA ==> at < q && q + 1 < |s|
  {
    hide ParseItems, ParseValue, SkipWs, ValueRead, Append, LostItems;
    ItemUnfold(s, at, depth, w, v, n, q);
    var r, here := ParseItems(s[p..], depth), ParseItems(s[at..], depth);
    hide Skipped, Terminated;
    if s[q] == COMMA {
      AheadMore(r, list, [], v, here, ParseItems(s[q + 1..], depth));
    } else if s[q] == CLOSE_ARRAY {
      AheadLast(r, list, [], v, here, s[q + 1..]);
    }
  }

  lemma ItemUnfold(s: seq<byte>, at: nat, depth: nat, w: nat, v: Json, n: nat, q: nat)
    requires Skipped(s, at, w) && ValueRead(s, w, depth, Some(v), n) && Skipped(s, n, q)
    ensures at < q && (s[q] == COMMA || s[q] == CLOSE_ARRAY ==> q + 1 < |s|)
    ensures ParseItems(s[at..], depth) == ItemsFrom(s, q, v, depth)
    ensures LostItems(s[at..], depth) == LostComma(s, q, false, depth)
  {
    hide ParseValue, SkipWs, LostValue;
    assert s[q..][0] == s[q] && s[q..][1..] == s[q + 1..];
  }

  /** Where the loop stops once the byte behind an element or member is at `q`. */
  ghost function LostComma(s: seq<byte>, q: nat, keyed: bool, depth: nat): seq<byte>
    requires Terminated(s) && q < |s|
  {
    if s[q] != COMMA then s[q..]
    else if keyed then LostMembers(s[q + 1..], depth)
    else LostItems(s[q + 1..], depth)
  }

  /** The outcome of the loop once the element `v` has been read and the byte behind it is at `q`. */
  ghost function ItemsFrom(s: seq<byte>, q: nat, v: Json, depth: nat): Option<KidsResult>
    requires Terminated(s) && q < |s|
  {
    if s[q] == COMMA then
      var more := ParseItems(s[q + 1..], depth);
      if more.None? then None else Some(KidsResult(Kid([], v, more.value.kids), more.value.rest))
    else if s[q] == CLOSE_ARRAY then Some(KidsResult(Kid([], v, End), s[q + 1..]))
    else None
  }

  lemma ItemFails(s: seq<byte>, p: nat, depth: nat, list: Kids, at: nat, w: nat, n: nat)
    requires ItemsPass(s, p, depth, list, at) && Skipped(s, at, w) && ValueRead(s, w, depth, None, n)
    ensures ItemsRead(s, p, depth, None, n)
  {
    hide ParseValue, SkipWs, LostValue;
  }

  /** The rest of the member loop behind the colon of `key`. */
  ghost function FromValue(t: seq<byte>, key: seq<byte>, depth: nat): Option<KidsResult>
    requires Terminated(t)
  {
    var v := ParseValue(t, depth);
    if v.None? then None
    else
      var q := SkipWs(v.value.rest);
      if q[0] == COMMA then
        var more := ParseMembers(q[1..], depth);
        if more.None? then None
        else Some(KidsResult(Kid(key, v.value.value, more.value.kids), more.value.rest))
      else if q[0] == CLOSE_OBJECT then Some(KidsResult(Kid(key, v.value.value, End), q[1..]))
      else None
  }

  /** The outcome of the loop once `key` has been read and the byte behind it is at `c`. */
  ghost function FromColon(s: seq<byte>, c: nat, key: seq<byte>, depth: nat): Option<KidsResult>
    requires Terminated(s) && c < |s|
  {
    if s[c] != COLON then None else FromValue(SkipWs(s[c + 1..]), key, depth)
  }

  ghost function LostColon(s: seq<byte>, c: nat, depth: nat): seq<byte>
    requires Terminated(s) && c < |s|
  {
    if s[c] != COLON then s[c..] else LostMember(SkipWs(s[c + 1..]), depth)
  }

  /** The key, from the blanks before it to the byte behind the blanks that follow it. */
  lemma KeyUnfold(s: seq<byte>, at: nat, depth: nat, w: nat, key: seq<byte>, k: nat, c: nat)
    requires Skipped(s, at, w) && StringRead(s, w, Some(key), k) && k < |s| && Skipped(s, k, c)
    ensures ParseMembers(s[at..], depth) == FromColon(s, c, key, depth)
    ensures LostMembers(s[at..], depth) == LostColon(s, c, depth)
  {
    hide ParseValue, SkipWs, JsonString.ParseString, LostMember, JsonString.LostString;
    StringRest(s[w..]);
    assert s[c..][0] == s[c] && s[c..][1..] == s[c + 1..];
  }

  lemma KeyFails(s: seq<byte>, at: nat, depth: nat, w: nat, k: nat)
    requires Skipped(s, at, w) && StringRead(s, w, None, k)
    ensures ParseMembers(s[at..], depth) == None && LostMembers(s[at..], depth) == s[k..]
  {
    hide ParseValue, SkipWs, JsonString.ParseString, LostMember, JsonString.LostString;
  }

  lemma MembersFail(s: seq<byte>, p: nat, depth: nat, list: Kids, at: nat, n: nat)
    requires MembersPass(s, p, depth, list, at) && ParseMembers(s[at..], depth) == None && n <= |s|
    requires s[n..] == LostMembers(s[at..], depth)
    ensures MembersRead(s, p, depth, None, n)
  {
    hide ParseMembers, LostMembers;
  }

  /** The member at `at` has the key `key` and its value at `w`. */
  ghost predicate KeyPassed(s: seq<byte>, p: nat, depth: nat, list: Kids, at: nat, key: seq<byte>, w: nat) {
    && MembersPass(s, p, depth, list, at) && at < w < |s|
    && ParseMembers(s[at..], depth) == FromValue(s[w..], key, depth)
    && LostMembers(s[at..], depth) == LostMember(s[w..], depth)
  }

  /** One member whose value starts at `w`: the value up to `n`, blanks up to `q`. */
  lemma MemberTurn(s: seq<byte>, p: nat, depth: nat, list: Kids, at: nat, key: seq<byte>, w: nat, v: Json, n: nat,
    q: nat)
    requires KeyPassed(s, p, depth, list, at, key, w) && ValueRead(s, w, depth, Some(v), n) && Skipped(s, n, q)
    ensures s[q] == COMMA ==> MembersPass(s, p, depth, Append(list, key, v), q + 1)
    ensures s[q] == CLOSE_OBJECT ==> MembersRead(s, p, depth, Some(Append(list, key, v)), q + 1)
    ensures s[q] != COMMA && s[q] != CLOSE_OBJECT ==> MembersRead(s, p, depth, None, q)
    ensures s[q] == COMMA ==> at < q && q + 1 < |s|
  {
    hide ParseMembers, ParseValue, SkipWs, ValueRead, Append, FromValue, LostMembers, LostMember;
    MemberUnfold(s, depth, key, w, v, n, q);
    var r, here := ParseMembers(s[p..], depth), ParseMembers(s[at..], depth);
    hide Skipped, Terminated;
    if s[q] == COMMA {
      AheadMore(r, list, key, v, here, ParseMembers(s[q + 1..], depth));
    } else if s[q] == CLOSE_OBJECT {
      AheadLast(r, list, key, v, here, s[q + 1..]);
    }
  }

  lemma MemberUnfold(s: seq<byte>, depth: nat, key: seq<byte>, w: nat, v: Json, n: nat, q: nat)
    requires ValueRead(s, w, depth, Some(v), n) && Skipped(s, n, q)
    ensures w < q && (s[q] == COMMA || s[q] == CLOSE_OBJECT ==> q + 1 < |s|)
    ensures FromValue(s[w..], key, depth) == MembersFrom(s, q, key, v, depth)
    ensures LostMember(s[w..], depth) == LostComma(s, q, true, depth)
  {
    hide ParseValue, SkipWs, ParseMembers, LostMembers, LostValue;
    assert s[q..][0] == s[q] && s[q..][1..] == s[q + 1..];
  }

  ghost function MembersFrom(s: seq<byte>, q: nat, key: seq<byte>, v: Json, depth: nat): Option<KidsResult>
    requires Terminated(s) && q < |s|
  {
    if s[q] == COMMA then
      var more := ParseMembers(s[q + 1..], depth);
      if more.None? then None else Some(KidsResult(Kid(key, v, more.value.kids), more.value.rest))
    else if s[q] == CLOSE_OBJECT then Some(KidsResult(Kid(key, v, End), s[q + 1..]))
    else None
  }

  lemma ValueFails(s: seq<byte>, depth: nat, key: seq<byte>, w: nat, n: nat)
    requires ValueRead(s, w, depth, None, n)
    ensures FromValue(s[w..], key, depth) == None && s[n..] == LostMember(s[w..], depth)
  {
    hide ParseValue, ParseMembers, LostValue;
  }

  // ---------- one value

  /** An array or object that begins at `p`, its first visible byte behind the bracket at `w`. */
  lemma ArrayUnfold(s: seq<byte>, p: nat, depth: nat, w: nat)
    requires Terminated(s) && p + 1 < |s| && s[p] == OPEN_ARRAY && depth < NESTING_LIMIT && Skipped(s, p + 1, w)
    ensures s[w] == CLOSE_ARRAY ==> ValueRead(s, p, depth, Some(Array(End)), w + 1)
    ensures s[w] != CLOSE_ARRAY ==> ParseValue(s[p..], depth) == ArrayFrom(s, w, depth)
    ensures LostValue(s[p..], depth) == LostItems(s[w..], depth + 1)
  {
    hide SkipWs, ParseItems, ParseMembers, ParseNumber, JsonString.ParseString, LostItems, LostMembers;
    NotKeyword(s[p..]);
    assert s[p..][1..] == s[p + 1..] && s[w..][1..] == s[w + 1..] && s[w..][0] == s[w];
  }

  lemma ObjectUnfold(s: seq<byte>, p: nat, depth: nat, w: nat)
    requires Terminated(s) && p + 1 < |s| && s[p] == OPEN_OBJECT && depth < NESTING_LIMIT && Skipped(s, p + 1, w)
    ensures s[w] == CLOSE_OBJECT ==> ValueRead(s, p, depth, Some(Object(End)), w + 1)
    ensures s[w] != CLOSE_OBJECT ==> ParseValue(s[p..], depth) == ObjectFrom(s, w, depth)
    ensures LostValue(s[p..], depth) == LostMembers(s[w..], depth + 1)
  {
    hide SkipWs, ParseItems, ParseMembers, ParseNumber, JsonString.ParseString, LostItems, LostMembers;
    NotKeyword(s[p..]);
    assert s[p..][1..] == s[p + 1..] && s[w..][1..] == s[w + 1..] && s[w..][0] == s[w];
  }

  lemma TooDeep(s: seq<byte>, p: nat, depth: nat)
    requires Terminated(s) && p < |s| && (s[p] == OPEN_ARRAY || s[p] == OPEN_OBJECT) && depth >= NESTING_LIMIT
    ensures ParseValue(s[p..], depth) == None && LostValue(s[p..], depth) == s[p..]
  {
    hide SkipWs, ParseItems, ParseMembers, ParseNumber, JsonString.ParseString;
    NotKeyword(s[p..]);
  }

  /** The first byte decides, but for the three keywords. */
  lemma ScalarUnfold(s: seq<byte>, p: nat, depth: nat)
    requires Terminated(s) && p < |s|
    ensures var t := s[p..];
      && (NULL_TEXT <= t ==> ValueRead(s, p, depth, Some(Null), p + 4))
      && (FALSE_TEXT <= t ==> ValueRead(s, p, depth, Some(False), p + 5))
      && (TRUE_TEXT <= t ==> ValueRead(s, p, depth, Some(True), p + 4))
  {
    hide SkipWs, ParseItems, ParseMembers, ParseNumber, JsonString.ParseString;
    var t := s[p..];
    assert NULL_TEXT <= t ==> t[0] == 110 && t[3] == 108;
    assert TRUE_TEXT <= t ==> t[0] == 116 && t[3] == 101;
    assert FALSE_TEXT <= t ==> t[0] == 102 && t[4] == 101;
    assert |t| > 4 ==> t[4..] == s[p + 4..];
    assert |t| > 5 ==> t[5..] == s[p + 5..];
  }

  lemma TextUnfold(s: seq<byte>, p: nat, depth: nat, r: Option<seq<byte>>, next: nat)
    requires Terminated(s) && p < |s| && s[p] == QUOTE && StringRead(s, p, r, next)
    ensures ValueRead(s, p, depth, if r.None? then None else Some(Text(r.value)), next)
  {
    hide SkipWs, ParseItems, ParseMembers, ParseNumber, JsonString.ParseString, JsonString.LostString;
    StringRest(s[p..]);
    NotKeyword(s[p..]);
  }

  lemma OtherUnfold(s: seq<byte>, p: nat, depth: nat)
    requires Terminated(s) && p < |s|
    requires s[p] != QUOTE && s[p] != MINUS && !Digit(s[p]) && s[p] != OPEN_ARRAY && s[p] != OPEN_OBJECT
    requires var t := s[p..]; !(NULL_TEXT <= t) && !(FALSE_TEXT <= t) && !(TRUE_TEXT <= t)
    ensures ParseValue(s[p..], depth) == None && LostValue(s[p..], depth) == s[p..]
  {
    hide SkipWs, ParseItems, ParseMembers, ParseNumber, JsonString.ParseString;
  }

  // ---------- what the relations say about offsets

  lemma SkippedFacts(s: seq<byte>, p: nat, next: nat)
    requires Skipped(s, p, next)
    ensures p <= next < |s|
  {
  }

  lemma ReadFacts(s: seq<byte>, p: nat, depth: nat, r: Option<Json>, next: nat)
    requires ValueRead(s, p, depth, r, next)
    ensures next <= |s| && (r.Some? ==> p < next < |s|)
  {
    hide ParseValue, LostValue;
  }

  lemma StringFacts(s: seq<byte>, p: nat, r: Option<seq<byte>>, next: nat)
    requires StringRead(s, p, r, next) && Terminated(s)
    ensures next <= |s| && (r.Some? ==> p < next < |s|)
  {
    hide JsonString.ParseString, JsonString.LostString;
    StringRest(s[p..]);
  }

  lemma NothingRead(s: seq<byte>, p: nat, depth: nat, next: nat)
    requires Terminated(s) && p < |s| && next <= |s| && ParseValue(s[p..], depth) == None
    requires s[next..] == LostValue(s[p..], depth)
    ensures ValueRead(s, p, depth, None, next)
  {
    hide ParseValue, LostValue;
  }

  ghost function ArrayFrom(s: seq<byte>, w: nat, depth: nat): Option<Result>
    requires Terminated(s) && w < |s|
  {
    var k := ParseItems(s[w..], depth + 1);
    if k.None? then None else Some(Result(Array(k.value.kids), k.value.rest))
  }

  /** An array at `p` whose elements begin at `w`. */
  ghost predicate ArrayAt(s: seq<byte>, p: nat, depth: nat, w: nat) {
    && Terminated(s) && p < w < |s| && ParseValue(s[p..], depth) == ArrayFrom(s, w, depth)
    && LostValue(s[p..], depth) == LostItems(s[w..], depth + 1)
  }

  lemma ArrayDone(s: seq<byte>, p: nat, depth: nat, w: nat, k: Option<Kids>, next: nat)
    requires ArrayAt(s, p, depth, w) && ItemsRead(s, w, depth + 1, k, next)
    ensures ValueRead(s, p, depth, if k.None? then None else Some(Array(k.value)), next)
  {
    hide ParseValue, ParseItems, LostValue, LostItems;
  }

  ghost function ObjectFrom(s: seq<byte>, w: nat, depth: nat): Option<Result>
    requires Terminated(s) && w < |s|
  {
    var k := ParseMembers(s[w..], depth + 1);
    if k.None? then None else Some(Result(Object(k.value.kids), k.value.rest))
  }

  /** An object at `p` whose members begin at `w`. */
  ghost predicate ObjectAt(s: seq<byte>, p: nat, depth: nat, w: nat) {
    && Terminated(s) && p < w < |s| && ParseValue(s[p..], depth) == ObjectFrom(s, w, depth)
    && LostValue(s[p..], depth) == LostMembers(s[w..], depth + 1)
  }

  lemma ObjectDone(s: seq<byte>, p: nat, depth: nat, w: nat, k: Option<Kids>, next: nat)
    requires ObjectAt(s, p, depth, w) && MembersRead(s, w, depth + 1, k, next)
    ensures ValueRead(s, p, depth, if k.None? then None else Some(Object(k.value)), next)
  {
    hide ParseValue, ParseMembers, LostValue, LostMembers;
  }
}

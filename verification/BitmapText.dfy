/** The texts that the bitmap parser accepts, described without reference to how it reads them. */
module BitmapText {
  import opened Common
  import opened BitmapParse

  // ---------- the language

  ghost predicate Blanks(s: seq<char>) { forall k | 0 <= k < |s| :: Space(s[k]) }

  /** The number that hexadecimal digits stand for, behind those of `v`. */
  function Hex(v: nat, digits: seq<char>): nat
    requires Digits(digits)
    decreases |digits|
  {
    if digits == [] then v else Hex(v * 16 + HexDigit(digits[0]).value, digits[1..])
  }

  predicate Digits(s: seq<char>) { forall k | 0 <= k < |s| :: HexDigit(s[k]).Some? }

  /** One or more digits, leading zeros allowed, that stand for a number of at most 32 bits. */
  predicate Group(g: seq<char>) { g != [] && Digits(g) && Hex(0, g) < CHUNK }

  predicate Groups(gs: seq<seq<char>>) { gs != [] && forall k | 0 <= k < |gs| :: Group(gs[k]) }

  function Joined(gs: seq<seq<char>>): seq<char>
    requires gs != []
    decreases |gs|
  {
    if |gs| == 1 then gs[0] else gs[0] + ([','] + Joined(gs[1..]))
  }

  /** The number whose 32-bit digits, behind those of `v`, are the groups. */
  function Number(v: nat, gs: seq<seq<char>>): nat
    requires forall k | 0 <= k < |gs| :: Group(gs[k])
    decreases |gs|
  {
    if gs == [] then v
    else
      assert Group(gs[0]);
      Number(v * CHUNK + Hex(0, gs[0]), gs[1..])
  }

  /** What may follow the last group: blanks up to the end of the buffer or up to a terminator. */
  ghost predicate Tail(s: seq<char>) { Blanks(s) || exists k :: 0 <= k < |s| && s[k] == NUL && Blanks(s[..k]) }

  /** `text` is a bitmap text with leading blanks, these groups and this ending. */
  ghost predicate Reads(text: seq<char>, lead: seq<char>, gs: seq<seq<char>>, tail: seq<char>) {
    Blanks(lead) && Groups(gs) && text == lead + Joined(gs) + tail
  }

  /** `text` is well formed and stands for `v`. */
  ghost predicate Stands(text: seq<char>, v: nat) {
    exists lead, gs, tail :: Reads(text, lead, gs, tail) && Tail(tail) && v == Number(0, gs)
  }

  /** `text` is a well formed text, ending with its last digit, and one more comma. */
  ghost predicate CommaEnds(text: seq<char>, v: nat) {
    exists lead, gs :: Reads(text, lead, gs, [',']) && v == Number(0, gs)
  }

  ghost predicate Ending(s: seq<char>) { Tail(s) || s == [','] }

  // ---------- reading blanks and digits

  /** Blanks before the first digit do not matter. */
  lemma {:induction false} SkipLead(text: seq<char>, i: nat, n: nat, last: char)
    requires i + n <= |text| && Blanks(text[i..i + n])
    ensures ReadChunk(text, i, last, 0, 0) == ReadChunk(text, i + n, if n == 0 then last else text[i + n - 1], 0, 0)
    decreases n
  {
    if n > 0 {
      assert text[i] == text[i..i + n][0];
      assert text[i + 1..i + 1 + (n - 1)] == text[i..i + n][1..];
      SkipLead(text, i + 1, n - 1, text[i]);
    }
  }

  lemma {:induction false} HexGrows(v: nat, d: seq<char>)
    requires Digits(d)
    ensures Hex(v, d) >= v && (d != [] ==> Hex(v, d) >= 16 * v)
    decreases |d|
  {
    if d != [] {
      HexGrows(v * 16 + HexDigit(d[0]).value, d[1..]);
    }
  }

  /** Digits are read, and overflow is detected exactly when the number has more than 32 bits. */
  lemma {:induction false} ReadDigits(text: seq<char>, i: nat, n: nat, last: char, total: nat, v: nat)
    requires i + n <= |text| && Digits(text[i..i + n]) && v < CHUNK && (total == 0 || !Space(last))
    ensures var r, h := ReadChunk(text, i, last, total, v), Hex(v, text[i..i + n]);
      if h < CHUNK then r == ReadChunk(text, i + n, if n == 0 then last else text[i + n - 1], total + n, h)
      else r == None
    decreases n
  {
    hide HexDigit, Space, ReadChunk, Hex, Digits;
    DigitsNext(text, i, n, v);
    if n > 0 {
      var w := v * 16 + HexDigit(text[i]).value;
      DigitIsPlain(text[i], text[i]);
      HexGrows(w, text[i + 1..i + n]);
      OneDigit(text, i, last, total, v);
      if v < 0x1000_0000 {
        ReadDigits(text, i + 1, n - 1, text[i], total + 1, w);
      }
    }
  }

  /** The first digit of a number and the others. */
  lemma DigitsNext(text: seq<char>, i: nat, n: nat, v: nat)
    requires i + n <= |text| && Digits(text[i..i + n])
    ensures n == 0 ==> Hex(v, text[i..i + n]) == v
    ensures n > 0 ==>
      && HexDigit(text[i]).Some? && Digits(text[i + 1..i + n])
      && Hex(v, text[i..i + n]) == Hex(v * 16 + HexDigit(text[i]).value, text[i + 1..i + n])
  {
    hide HexDigit;
    if n > 0 {
      NextDigits(text, i, n);
      assert text[i..i + n][0] == text[i];
    }
  }

  /** One digit is read, unless the chunk already has 28 bits. */
  lemma OneDigit(text: seq<char>, i: nat, last: char, total: nat, v: nat)
    requires i < |text| && HexDigit(text[i]).Some? && v < CHUNK && (total == 0 || !Space(last))
    ensures HexDigit(text[i]).value < 16
    ensures ReadChunk(text, i, last, total, v) ==
      if v >= 0x1000_0000 then None
      else ReadChunk(text, i + 1, text[i], total + 1, v * 16 + HexDigit(text[i]).value)
  {
    hide HexDigit, Space;
    DigitIsPlain(text[i], text[i]);
  }

  lemma NextDigits(text: seq<char>, i: nat, n: nat)
    requires 0 < n && i + n <= |text|
    ensures text[i..i + n][1..] == text[i + 1..i + 1 + (n - 1)]
  {
  }

  lemma DigitIsPlain(c: char, d: char)
    requires c == d && HexDigit(c).Some?
    ensures !Space(c) && c != NUL && c != ',' && HexDigit(c).value < 16
  {
  }

  /** Behind a blank that follows a digit only blanks and a terminator are accepted. */
  lemma {:induction false} AfterBlank(text: seq<char>, i: nat, last: char, total: nat, v: nat)
    requires i <= |text| && total > 0 && v < CHUNK && Space(last)
    ensures var r := ReadChunk(text, i, last, total, v);
      && r.Some? == Tail(text[i..])
      && (r.Some? ==> r.value.chunk == v && r.value.total == total && r.value.last != ',')
    decreases |text| - i
  {
    if i < |text| {
      TailNext(text, i);
      if Space(text[i]) {
        AfterBlank(text, i + 1, text[i], total, v);
      }
    } else {
      assert Blanks(text[i..]);
    }
  }

  lemma TailNext(text: seq<char>, i: nat)
    requires i < |text|
    ensures Tail(text[i..]) <==> text[i] == NUL || (Space(text[i]) && Tail(text[i + 1..]))
  {
    var s, t := text[i..], text[i + 1..];
    assert s == [text[i]] + t;
    if Tail(s) && text[i] != NUL {
      if !Blanks(s) {
        var k :| 0 <= k < |s| && s[k] == NUL && Blanks(s[..k]);
        assert s[..k][0] == text[i];
        assert t[k - 1] == NUL && t[..k - 1] == s[..k][1..];
      } else {
        assert s[0] == text[i];
        forall k | 0 <= k < |t| ensures Space(t[k]) { assert t[k] == s[k + 1]; }
      }
    }
    if text[i] == NUL {
      assert s[0] == NUL && s[..0] == [];
    } else if Space(text[i]) && Tail(t) && !Blanks(t) {
      var k :| 0 <= k < |t| && t[k] == NUL && Blanks(t[..k]);
      assert s[..k + 1] == [text[i]] + t[..k] && s[k + 1] == NUL;
    }
  }

  /** What ends a chunk behind a digit. */
  lemma ChunkEnd(text: seq<char>, i: nat, last: char, total: nat, v: nat)
    requires i <= |text| && total > 0 && v < CHUNK && !Space(last)
    requires i < |text| ==> HexDigit(text[i]).None?
    ensures var r := ReadChunk(text, i, last, total, v);
      if i < |text| && text[i] == ',' then r == Some(Read(v, total, i + 1, ','))
      else
        && r.Some? == Tail(text[i..])
        && (r.Some? ==> r.value.chunk == v && r.value.total == total && (r.value.last != ',' || r.value.next == |text|))
  {
    if i < |text| {
      TailNext(text, i);
      if Space(text[i]) {
        AfterBlank(text, i + 1, text[i], total, v);
      }
    } else {
      assert Blanks(text[i..]);
    }
  }

  // ---------- everything in the language is read as its number

  /** What stands behind the first group. */
  function Behind(gs: seq<seq<char>>, tail: seq<char>): seq<char>
    requires gs != []
  {
    if |gs| == 1 then tail else [','] + (Joined(gs[1..]) + tail)
  }

  lemma GroupFirst(s: seq<char>, gs: seq<seq<char>>, tail: seq<char>)
    requires Groups(gs) && s == Joined(gs) + tail
    ensures var g := gs[0];
      && |g| <= |s| && s[..|g|] == g
      && s[|g|..] == Behind(gs, tail)
  {
    var g := gs[0];
    assert Joined(gs) == if |gs| == 1 then g else g + ([','] + Joined(gs[1..]));
    hide Joined;
    if |gs| > 1 {
      Regrouped(g, Joined(gs[1..]), tail);
    }
    Front(g, Behind(gs, tail));
  }

  lemma Regrouped(g: seq<char>, r: seq<char>, tail: seq<char>)
    ensures g + ([','] + r) + tail == g + ([','] + (r + tail))
  {
  }

  lemma Front(g: seq<char>, rest: seq<char>)
    ensures (g + rest)[..|g|] == g && (g + rest)[|g|..] == rest
  {
  }

  lemma EndingStart(tail: seq<char>)
    requires Ending(tail) && tail != []
    ensures HexDigit(tail[0]).None? && (tail[0] == ',' ==> tail == [','] && !Tail(tail))
  {
    assert tail[0..] == tail;
    TailNext(tail, 0);
  }

  lemma Suffix(text: seq<char>, i: nat, n: nat)
    requires i + n <= |text|
    ensures text[i..][..n] == text[i..i + n] && text[i..][n..] == text[i + n..]
  {
  }

  lemma {:induction false} GroupsRead(text: seq<char>, i: nat, last: char, total: nat, v: nat, gs: seq<seq<char>>,
    tail: seq<char>)
    requires i <= |text| && Groups(gs) && Ending(tail) && text[i..] == Joined(gs) + tail && (total == 0 || !Space(last))
    ensures ReadNumber(text, i, last, total, v) == Some(Number(v, gs))
    decreases |gs|
  {
    hide ReadNumber, Hex, Joined, Ending, Space, Number, Group, Groups;
    NumberNext(v, gs);
    if |gs| == 1 {
      LastRead(text, i, last, total, v, gs, tail);
    } else {
      var j, total' := CommaRead(text, i, last, total, v, gs, tail);
      GroupsRead(text, j, ',', total', v * CHUNK + Hex(0, gs[0]), gs[1..], tail);
    }
  }

  /** The first group: where it ends. */
  lemma FirstRead(text: seq<char>, i: nat, last: char, total: nat, gs: seq<seq<char>>, tail: seq<char>)
    requires i <= |text| && Groups(gs) && text[i..] == Joined(gs) + tail && (total == 0 || !Space(last))
    ensures var j := i + |gs[0]|;
      && i < j <= |text| && Hex(0, gs[0]) < CHUNK && !Space(text[j - 1])
      && text[j..] == Behind(gs, tail)
      && ReadChunk(text, i, last, total, 0) == ReadChunk(text, j, text[j - 1], total + |gs[0]|, Hex(0, gs[0]))
  {
    hide ReadChunk, Hex, Joined, Space, Number, Behind, Group, Groups, Digits;
    NumberNext(0, gs);
    GroupFirst(text[i..], gs, tail);
    Suffix(text, i, |gs[0]|);
    OneGroup(text, i, last, total, gs[0]);
  }

  lemma LastRead(text: seq<char>, i: nat, last: char, total: nat, v: nat, gs: seq<seq<char>>, tail: seq<char>)
    requires i <= |text| && Groups(gs) && Ending(tail) && text[i..] == Joined(gs) + tail && (total == 0 || !Space(last))
    requires |gs| == 1
    ensures ReadNumber(text, i, last, total, v) == Some(Number(v, gs))
  {
    hide ReadChunk, ReadNumber, Hex, Joined, Ending, Space, Number, Group, Groups;
    NumberNext(v, gs);
    FirstRead(text, i, last, total, gs, tail);
    LastGroup(text, i + |gs[0]|, total + |gs[0]|, Hex(0, gs[0]), tail);
    OneChunk(text, i, last, total, v);
  }

  lemma CommaRead(text: seq<char>, i: nat, last: char, total: nat, v: nat, gs: seq<seq<char>>, tail: seq<char>)
    returns (j: nat, total': nat)
    requires i <= |text| && Groups(gs) && text[i..] == Joined(gs) + tail && (total == 0 || !Space(last)) && |gs| > 1
    ensures j <= |text| && Groups(gs[1..]) && text[j..] == Joined(gs[1..]) + tail && !Space(',')
    ensures ReadNumber(text, i, last, total, v) == ReadNumber(text, j, ',', total', v * CHUNK + Hex(0, gs[0]))
    ensures Group(gs[0]) && Number(v, gs) == Number(v * CHUNK + Hex(0, gs[0]), gs[1..])
  {
    hide ReadChunk, ReadNumber, Hex, Joined, Space, Number, Group, Groups, Digits, Behind;
    NumberNext(v, gs);
    FirstRead(text, i, last, total, gs, tail);
    j, total' := i + |gs[0]| + 1, total + |gs[0]|;
    CommaNext(text, j - 1, total', Hex(0, gs[0]), gs, tail);
    OneChunk(text, i, last, total, v);
  }

  lemma GroupDigits(g: seq<char>)
    requires Group(g)
    ensures Digits(g)
  {
  }

  lemma NumberNext(v: nat, gs: seq<seq<char>>)
    requires Groups(gs)
    ensures gs != [] && forall k | 0 <= k < |gs| - 1 :: Group(gs[1..][k])
    ensures Group(gs[0]) && Digits(gs[0]) && Number(v, gs) == Number(v * CHUNK + Hex(0, gs[0]), gs[1..])
    ensures |gs| == 1 ==> Number(v, gs) == v * CHUNK + Hex(0, gs[0])
  {
    GroupDigits(gs[0]);
    hide Hex, Group;
    assert |gs| == 1 ==> gs[1..] == [];
  }

  /** What one chunk adds to the number. */
  lemma OneChunk(text: seq<char>, i: nat, last: char, total: nat, v: nat)
    requires i <= |text| && ReadChunk(text, i, last, total, 0).Some?
    ensures var x := ReadChunk(text, i, last, total, 0).value;
      && x.next <= |text|
      && (x.total > total ==>
            if x.next < |text| && x.last == ','
            then ReadNumber(text, i, last, total, v) == ReadNumber(text, x.next, ',', x.total, v * CHUNK + x.chunk)
            else ReadNumber(text, i, last, total, v) == Some(v * CHUNK + x.chunk))
  {
    hide ReadChunk;
  }

  lemma OneGroup(text: seq<char>, i: nat, last: char, total: nat, g: seq<char>)
    requires i + |g| <= |text| && Group(g) && text[i..i + |g|] == g && (total == 0 || !Space(last))
    ensures |g| > 0 && Hex(0, g) < CHUNK && !Space(text[i + |g| - 1])
    ensures ReadChunk(text, i, last, total, 0)
      == ReadChunk(text, i + |g|, text[i + |g| - 1], total + |g|, Hex(0, g))
  {
    hide ReadChunk, HexDigit, Hex;
    ReadDigits(text, i, |g|, last, total, 0);
    DigitIsPlain(text[i + |g| - 1], g[|g| - 1]);
  }

  lemma LastGroup(text: seq<char>, j: nat, total: nat, h: nat, tail: seq<char>)
    requires 0 < j <= |text| && total > 0 && h < CHUNK && !Space(text[j - 1])
    requires text[j..] == tail && Ending(tail)
    ensures var r := ReadChunk(text, j, text[j - 1], total, h);
      && r.Some? && r.value.chunk == h && r.value.total == total
      && !(r.value.next < |text| && r.value.last == ',')
  {
    hide ReadChunk, HexDigit;
    if tail != [] {
      EndingStart(tail);
      assert text[j] == tail[0];
    }
    ChunkEnd(text, j, text[j - 1], total, h);
  }

  lemma CommaNext(text: seq<char>, j: nat, total: nat, h: nat, gs: seq<seq<char>>, tail: seq<char>)
    requires 0 < j <= |text| && total > 0 && h < CHUNK && !Space(text[j - 1]) && Groups(gs) && |gs| > 1
    requires text[j..] == Behind(gs, tail)
    ensures j + 1 < |text| && text[j + 1..] == Joined(gs[1..]) + tail && Groups(gs[1..]) && !Space(',')
    ensures ReadChunk(text, j, text[j - 1], total, h) == Some(Read(h, total, j + 1, ','))
  {
    JoinedNonEmpty(gs[1..]);
    hide ReadChunk, HexDigit, Joined;
    PastComma(text, j, Joined(gs[1..]) + tail);
    ChunkEnd(text, j, text[j - 1], total, h);
    CommaIsPlain();
  }

  lemma PastComma(text: seq<char>, j: nat, rest: seq<char>)
    requires j <= |text| && text[j..] == [','] + rest
    ensures j < |text| && text[j] == ',' && text[j + 1..] == rest && |text| == j + 1 + |rest|
  {
    assert text[j] == text[j..][0];
    assert text[j + 1..] == text[j..][1..];
  }

  lemma JoinedNonEmpty(gs: seq<seq<char>>)
    requires Groups(gs)
    ensures Joined(gs) != []
  {
  }

  // ---------- everything that is read is in the language

  /** How many digits stand at `i`. */
  function Run(text: seq<char>, i: nat): (n: nat)
    requires i <= |text|
    ensures i + n <= |text| && Digits(text[i..i + n]) && (i + n < |text| ==> HexDigit(text[i + n]).None?)
    decreases |text| - i
  {
    if i == |text| || HexDigit(text[i]).None? then 0
    else
      var n := Run(text, i + 1);
      assert text[i..i + 1 + n] == [text[i]] + text[i + 1..i + 1 + n];
      1 + n
  }

  lemma {:induction false} ReadGroups(text: seq<char>, i: nat, last: char, total: nat, v: nat)
    returns (gs: seq<seq<char>>, tail: seq<char>)
    requires i <= |text| && ReadNumber(text, i, last, total, v).Some? && (total == 0 || !Space(last))
    requires total == 0 && i < |text| ==> !Space(text[i])
    ensures Groups(gs) && Ending(tail) && text[i..] == Joined(gs) + tail
    ensures ReadNumber(text, i, last, total, v) == Some(Number(v, gs))
    decreases |text| - i
  {
    hide ReadNumber, Hex, Ending, Joined, Digits;
    var n := FirstGroup(text, i, last, total, v);
    var j, g := i + n, text[i..i + n];
    if j + 1 < |text| && text[j] == ',' {
      var rest;
      CommaIsPlain();
      rest, tail := ReadGroups(text, j + 1, ',', total + n, v * CHUNK + Hex(0, g));
      gs := [g] + rest;
      assert gs[1..] == rest;
      JoinMore(text, i, j, g, rest, tail);
    } else {
      gs, tail := [g], text[j..];
      assert gs[1..] == [];
      JoinOne(text, i, j);
    }
  }

  /** The first group of an accepted text, and what follows it. */
  lemma FirstGroup(text: seq<char>, i: nat, last: char, total: nat, v: nat) returns (n: nat)
    requires i <= |text| && ReadNumber(text, i, last, total, v).Some? && (total == 0 || !Space(last))
    requires total == 0 && i < |text| ==> !Space(text[i])
    ensures n > 0 && i + n <= |text| && Group(text[i..i + n])
    ensures var j, w, r := i + n, v * CHUNK + Hex(0, text[i..i + n]), ReadNumber(text, i, last, total, v);
      if j + 1 < |text| && text[j] == ',' then r == ReadNumber(text, j + 1, ',', total + n, w)
      else r == Some(w) && Ending(text[j..])
  {
    hide ReadChunk, HexDigit, Hex, Tail, Run;
    n := Run(text, i);
    var j, g := i + n, text[i..i + n];
    ReadDigits(text, i, n, last, total, 0);
    SomeDigit(text, i, n, last, total, v);
    DigitIsPlain(text[j - 1], g[n - 1]);
    ChunkEnd(text, j, text[j - 1], total + n, Hex(0, g));
    if j < |text| && text[j] == ',' && j + 1 == |text| {
      assert text[j..] == [','];
    }
  }

  lemma JoinOne(text: seq<char>, i: nat, j: nat)
    requires i <= j <= |text|
    ensures text[i..] == Joined([text[i..j]]) + text[j..]
  {
  }

  lemma CommaIsPlain()
    ensures !Space(',') && HexDigit(',').None?
  {
  }

  /** A chunk without digits is never accepted. */
  lemma SomeDigit(text: seq<char>, i: nat, n: nat, last: char, total: nat, v: nat)
    requires i <= |text| && n == Run(text, i) && (total == 0 || !Space(last))
    requires total == 0 && i < |text| ==> !Space(text[i])
    requires ReadNumber(text, i, last, total, v).Some?
    ensures n > 0 && Hex(0, text[i..i + n]) < CHUNK
  {
    ReadDigits(text, i, n, last, total, 0);
    if n == 0 && i < |text| && Space(text[i]) {
      AfterBlank(text, i + 1, text[i], total, 0);
    }
  }

  lemma JoinMore(text: seq<char>, i: nat, j: nat, g: seq<char>, rest: seq<seq<char>>, tail: seq<char>)
    requires i <= j < |text| && g == text[i..j] && text[j] == ',' && rest != [] && text[j + 1..] == Joined(rest) + tail
    ensures text[i..] == Joined([g] + rest) + tail
  {
    assert ([g] + rest)[1..] == rest;
    assert text[i..] == g + ([','] + text[j + 1..]);
    assert g + ([','] + (Joined(rest) + tail)) == g + ([','] + Joined(rest)) + tail;
  }

  // ---------- the exact language

  /** The number of leading blanks. */
  function Lead(text: seq<char>): (n: nat)
    ensures n <= |text| && Blanks(text[..n]) && (n < |text| ==> !Space(text[n]))
  {
    if text == [] || !Space(text[0]) then 0
    else
      var n := Lead(text[1..]);
      assert text[..1 + n] == [text[0]] + text[1..][..n];
      1 + n
  }

  lemma SameNumber(text: seq<char>, n: nat)
    requires n <= |text| && Blanks(text[..n])
    ensures Denoted(text) == ReadNumber(text, n, if n == 0 then NUL else text[n - 1], 0, 0)
  {
    hide ReadChunk;
    assert text[0..0 + n] == text[..n];
    SkipLead(text, 0, n, NUL);
  }

  /** The parser accepts a text exactly when it is well formed, or would be but for a comma as its very last byte, and
      reads it as the number that it stands for. */
  lemma DenotedExactly(text: seq<char>, v: nat)
    ensures Denoted(text) == Some(v) <==> Stands(text, v) || CommaEnds(text, v)
  {
    hide ReadNumber, Joined, Denoted;
    if Denoted(text) == Some(v) {
      var n := Lead(text);
      SameNumber(text, n);
      var gs, tail := ReadGroups(text, n, if n == 0 then NUL else text[n - 1], 0, 0);
      Decomposed(text, n, gs, tail);
      assert Reads(text, text[..n], gs, tail);
    }
    if Stands(text, v) {
      var lead, gs, tail :| Reads(text, lead, gs, tail) && Tail(tail) && v == Number(0, gs);
      AllRead(text, lead, gs, tail);
    }
    if CommaEnds(text, v) {
      var lead, gs :| Reads(text, lead, gs, [',']) && v == Number(0, gs);
      AllRead(text, lead, gs, [',']);
    }
  }

  lemma Decomposed(text: seq<char>, n: nat, gs: seq<seq<char>>, tail: seq<char>)
    requires n <= |text| && gs != [] && text[n..] == Joined(gs) + tail
    ensures text == text[..n] + Joined(gs) + tail
  {
    hide Joined;
    assert text == text[..n] + text[n..];
    assert text[..n] + (Joined(gs) + tail) == text[..n] + Joined(gs) + tail;
  }

  lemma AllRead(text: seq<char>, lead: seq<char>, gs: seq<seq<char>>, tail: seq<char>)
    requires Reads(text, lead, gs, tail) && Ending(tail)
    ensures Denoted(text) == Some(Number(0, gs))
  {
    hide ReadNumber, Joined, Denoted;
    var n := |lead|;
    assert text[..n] == lead && text[n..] == Joined(gs) + tail;
    SameNumber(text, n);
    GroupsRead(text, n, if n == 0 then NUL else text[n - 1], 0, 0, gs, tail);
  }

  // ---------- a comma at the end

  lemma {:induction false} JoinedPlain(gs: seq<seq<char>>)
    requires Groups(gs)
    ensures Joined(gs) != [] && HexDigit(Joined(gs)[|Joined(gs)| - 1]).Some?
    ensures forall k | 0 <= k < |Joined(gs)| :: Joined(gs)[k] != NUL
    decreases |gs|
  {
    var g := gs[0];
    assert forall k | 0 <= k < |g| :: HexDigit(g[k]).Some?;
    if |gs| > 1 {
      var r := Joined(gs[1..]);
      JoinedPlain(gs[1..]);
      assert Joined(gs) == g + ([','] + r);
      hide Joined;
      assert Joined(gs)[|Joined(gs)| - 1] == r[|r| - 1];
    }
  }

  /** The last character of a well formed text without terminator is a digit or a blank. */
  lemma LastOfText(text: seq<char>, v: nat)
    requires Stands(text, v) && forall k | 0 <= k < |text| :: text[k] != NUL
    ensures text != [] && text[|text| - 1] != ','
  {
    var lead, gs, tail :| Reads(text, lead, gs, tail) && Tail(tail) && v == Number(0, gs);
    JoinedPlain(gs);
    hide Joined;
    var n := |text| - |tail|;
    assert forall k | 0 <= k < |tail| :: text[n + k] == tail[k];
    if tail == [] {
      assert text[|text| - 1] == Joined(gs)[|Joined(gs)| - 1];
    } else {
      assert Blanks(tail);
      assert text[|text| - 1] == tail[|tail| - 1];
    }
  }

  /** A comma behind the last group, as the very last byte, is accepted although the text is not well formed. */
  lemma TrailingComma(lead: seq<char>, gs: seq<seq<char>>)
    requires Blanks(lead) && Groups(gs)
    ensures var text := lead + Joined(gs) + [','];
      Denoted(text) == Some(Number(0, gs)) && forall v :: !Stands(text, v)
  {
    hide Denoted, Joined, Stands;
    var text := lead + Joined(gs) + [','];
    AllRead(text, lead, gs, [',']);
    JoinedPlain(gs);
    assert forall k | 0 <= k < |lead| :: lead[k] != NUL;
    assert forall k | 0 <= k < |text| :: text[k] != NUL;
    forall v | Stands(text, v)
      ensures false
    {
      LastOfText(text, v);
    }
  }

  /** The comma has to be the very last byte: in front of a terminator it is rejected. */
  lemma CommaBeforeTerminator()
    ensures Denoted(['1', ',']) == Some(1) && Denoted(['1', ',', NUL]) == None
  {
    var t, u := ['1', ',', NUL], ['1', ','];
    assert HexDigit('1') == Some(1);
    assert ReadChunk(u, 1, '1', 1, 1) == Some(Read(1, 1, 2, ','));
    assert ReadChunk(u, 0, NUL, 0, 0) == Some(Read(1, 1, 2, ','));
    assert ReadChunk(t, 1, '1', 1, 1) == Some(Read(1, 1, 2, ','));
    assert ReadChunk(t, 0, NUL, 0, 0) == Some(Read(1, 1, 2, ','));
    assert ReadChunk(t, 2, ',', 1, 0) == Some(Read(0, 1, 3, NUL));
    assert ReadNumber(t, 2, ',', 1, 1) == None;
  }

  // ---------- every number has a text

  function DigitChar(d: nat): (c: char)
    requires d < 16
    ensures HexDigit(c) == Some(d)
  {
    if d < 10 then '0' + d as char else 'a' + (d - 10) as char
  }

  /** `v` in `n` hexadecimal digits. */
  function HexText(v: nat, n: nat): (s: seq<char>)
    ensures |s| == n && Digits(s)
    decreases n
  {
    if n == 0 then [] else HexText(v / 16, n - 1) + [DigitChar(v % 16)]
  }

  lemma {:induction false} HexAppend(v: nat, d: seq<char>, c: char)
    requires Digits(d) && HexDigit(c).Some?
    ensures Hex(v, d + [c]) == Hex(v, d) * 16 + HexDigit(c).value
    decreases |d|
  {
    hide HexDigit;
    if d == [] {
      assert d + [c] == [c] && [c][1..] == [];
    } else {
      assert (d + [c])[1..] == d[1..] + [c];
      HexAppend(v * 16 + HexDigit(d[0]).value, d[1..], c);
    }
  }

  lemma {:induction false} HexTextValue(v: nat, n: nat)
    requires v < Power16(n)
    ensures Hex(0, HexText(v, n)) == v
    decreases n
  {
    hide Hex, HexDigit, DigitChar;
    if n == 0 {
      HexNothing();
    } else {
      HexTextValue(v / 16, n - 1);
      HexAppend(0, HexText(v / 16, n - 1), DigitChar(v % 16));
    }
  }

  lemma HexNothing()
    ensures Hex(0, []) == 0
  {
  }

  function Power16(n: nat): nat { if n == 0 then 1 else 16 * Power16(n - 1) }

  /** Chunks of eight digits, one group each. */
  function Written(chunks: seq<nat>): (gs: seq<seq<char>>)
    ensures |gs| == |chunks| && forall k | 0 <= k < |gs| :: gs[k] == HexText(chunks[k], 8)
  {
    seq(|chunks|, k requires 0 <= k < |chunks| => HexText(chunks[k], 8))
  }

  /** The number whose 32-bit digits, behind those of `v`, are the chunks. */
  function Total(v: nat, chunks: seq<nat>): nat
    decreases |chunks|
  {
    if chunks == [] then v else Total(v * CHUNK + chunks[0], chunks[1..])
  }

  lemma {:induction false} WrittenTotal(v: nat, chunks: seq<nat>)
    requires forall k | 0 <= k < |chunks| :: chunks[k] < CHUNK
    ensures forall k | 0 <= k < |chunks| :: Group(Written(chunks)[k])
    ensures Number(v, Written(chunks)) == Total(v, chunks)
    decreases |chunks|
  {
    hide HexText, Hex;
    forall k | 0 <= k < |chunks|
      ensures Group(Written(chunks)[k]) && Hex(0, Written(chunks)[k]) == chunks[k]
    {
      EightDigits(chunks[k]);
    }
    if chunks != [] {
      assert Written(chunks)[1..] == Written(chunks[1..]);
      WrittenTotal(v * CHUNK + chunks[0], chunks[1..]);
    }
  }

  lemma EightDigits(c: nat)
    requires c < CHUNK
    ensures Group(HexText(c, 8)) && Hex(0, HexText(c, 8)) == c
  {
    hide Hex, HexText;
    assert Power16(8) == CHUNK;
    HexTextValue(c, 8);
  }

  /** Every list of 32-bit chunks, written out with commas, denotes its number. */
  lemma WrittenNumber(chunks: seq<nat>)
    requires chunks != [] && forall k | 0 <= k < |chunks| :: chunks[k] < CHUNK
    ensures Denoted(Joined(Written(chunks))) == Some(Total(0, chunks))
  {
    hide Joined, Written, Denoted, Number;
    var gs := Written(chunks);
    WrittenTotal(0, chunks);
    assert [] + Joined(gs) + [] == Joined(gs);
    assert Tail([]);
    AllRead(Joined(gs), [], gs, []);
  }
}

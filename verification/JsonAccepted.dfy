/** What cJSON accepts is the text of a well formed tree. */
module JsonAccepted {
  import opened Common
  import opened JsonString
  import opened Json
  import opened JsonRoundTrip
  import opened JsonGrammar

  /** A C string with its terminator: no byte but the last is zero. */
  ghost predicate Clean(s: seq<byte>) { Terminated(s) && forall i | 0 <= i < |s| - 1 :: s[i] != 0 }

  lemma CleanRest(s: seq<byte>, k: nat)
    requires Clean(s) && k < |s|
    ensures Clean(s[k..])
  {
  }

  // ---------- blanks

  lemma Headed(s: seq<byte>, v: seq<byte>, r: seq<byte>)
    requires s != [] && s[1..] == v + r
    ensures s == [s[0]] + v + r
  {
    assert s == [s[0]] + s[1..];
  }

  lemma {:induction false} SkipSplit(s: seq<byte>) returns (w: seq<byte>)
    requires Clean(s)
    ensures Blanks(w) && s == w + SkipWs(s) && Clean(SkipWs(s))
    decreases |s|
  {
    if |s| > 1 && s[0] <= 32 {
      CleanRest(s, 1);
      var v := SkipSplit(s[1..]);
      w := [s[0]] + v;
      assert s[0] != 0 && Blanks(w);
      assert SkipWs(s) == SkipWs(s[1..]);
      hide Clean, Blanks, SkipWs;
      Headed(s, v, SkipWs(s));
    } else {
      w := [];
    }
  }

  // ---------- numbers

  lemma {:induction false} DigitsPrefix(x: seq<byte>, k: nat)
    requires Digits(x) <= k <= |x|
    ensures Digits(x[..k]) == Digits(x)
  {
    if k > 0 && x != [] && Digit(x[0]) {
      assert x[..k][1..] == x[1..][..k - 1];
      DigitsPrefix(x[1..], k - 1);
    }
  }

  lemma DecimalPrefix(x: seq<byte>, k: nat)
    requires Decimal(x) <= k <= |x| && Decimal(x) > 0
    ensures Decimal(x[..k]) == Decimal(x)
  {
    var b := Digits(x);
    DigitsPrefix(x, k);
    hide Digits;
    if b < |x| && x[b] == 46 {
      assert x[..k][b + 1..] == x[b + 1..][..k - b - 1];
      DigitsPrefix(x[b + 1..], k - b - 1);
    }
  }

  lemma ExponentPrefix(x: seq<byte>)
    ensures Exponent(x[..Exponent(x)]) == Exponent(x)
  {
    var n := Exponent(x);
    if n > 0 {
      var k := 1 + Sign(x[1..]);
      assert x[..n][1..] == x[1..][..n - 1];
      assert x[..n][k..] == x[k..][..n - k];
      DigitsPrefix(x[k..], n - k);
    }
  }

  /** strtod takes the number that it has taken. */
  lemma StrtodPrefix(x: seq<byte>)
    requires Strtod(x) > 0
    ensures Strtod(x[..Strtod(x)]) == Strtod(x)
  {
    hide Decimal, Exponent;
    var n, a := Strtod(x), Sign(x);
    var d := Decimal(x[a..]);
    assert x[..n][a..] == x[a..][..n - a];
    DecimalPrefix(x[a..], n - a);
    assert x[..n][a + d..] == x[a + d..][..n - a - d];
    ExponentPrefix(x[a + d..]);
  }

  lemma NumberRead(s: seq<byte>) returns (l: seq<byte>)
    requires Clean(s) && (s[0] == MINUS || Digit(s[0])) && ParseNumber(s).Some?
    ensures var r := ParseNumber(s).value; Numeric(l) && r.value == Number(l) && s == l + r.rest && Clean(r.rest)
  {
    hide Strtod, Run;
    var x := s[..Run(s, 63)];
    var n := Strtod(x);
    StrtodPrefix(x);
    l := s[..n];
    assert x[..n] == l && s == l + s[n..];
    assert forall i | 0 <= i < n :: NumberByte(l[i]);
    assert NumberByte(s[n - 1]);
    CleanRest(s, n);
  }

  // ---------- strings

  lemma {:induction false} CloseWithin(t: seq<byte>, e: nat)
    requires Close(t) == Some(e)
    ensures Close(t[..e + 1]) == Some(e)
    decreases |t|
  {
    if t[0] == BACKSLASH {
      assert t[..e + 1][2..] == t[2..][..e - 1];
      CloseWithin(t[2..], e - 2);
    } else if t[0] != QUOTE {
      assert t[..e + 1][1..] == t[1..][..e];
      CloseWithin(t[1..], e - 1);
    }
  }

  /** A text split at a closing quote. */
  lemma QuoteSplit(s: seq<byte>, e: nat)
    requires e + 1 < |s| && s[0] == s[e + 1] == QUOTE
    ensures var t := s[1..]; var raw := t[..e];
      && t[..e + 1] == raw + [QUOTE] && t == (raw + [QUOTE]) + t[e + 1..]
      && s == [QUOTE] + (raw + ([QUOTE] + t[e + 1..])) && t[e + 1..] == s[e + 2..]
  {
  }

  lemma RawFree(s: seq<byte>, e: nat)
    requires Clean(s) && e + 1 < |s|
    ensures NulFree(s[1..][..e])
  {
  }

  lemma StringRead(s: seq<byte>) returns (raw: seq<byte>)
    requires Clean(s) && ParseString(s).Some?
    ensures var p := ParseString(s).value;
      && NulFree(raw) && Literally(raw) == Some(p.text)
      && s == [QUOTE] + (raw + ([QUOTE] + p.rest)) && Clean(p.rest)
  {
    var t := s[1..];
    var e := Close(t).value;
    raw := t[..e];
    CloseWithin(t, e);
    hide Close, Decode, Clean, NulFree;
    QuoteSplit(s, e);
    DecodeBefore(raw + [QUOTE], t[e + 1..], e);
    StringRest(s);
    RawFree(s, e);
    CleanRest(s, e + 2);
  }

  // ---------- values

  /** `t` is what the parser has read, at `depth`, from `s` up to `rest`. */
  ghost predicate Reads(s: seq<byte>, t: Tree, value: Json, rest: seq<byte>, depth: nat) {
    Fine(t, depth) && Value(t) == value && s == Emit(t, rest) && Clean(rest)
  }

  ghost predicate ReadsCells(s: seq<byte>, c: Cells, keyed: bool, kids: Kids, rest: seq<byte>, depth: nat) {
    c.Cell? && FineCells(c, keyed, depth) && Values(c, keyed) == kids && s == EmitCells(c, keyed, rest) && Clean(rest)
  }

  function Closing(keyed: bool): byte { if keyed then CLOSE_OBJECT else CLOSE_ARRAY }

  lemma {:induction false} ValueReads(s: seq<byte>, depth: nat) returns (t: Tree)
    requires Clean(s) && ParseValue(s, depth).Some?
    ensures var r := ParseValue(s, depth).value; Reads(s, t, r.value, r.rest, depth)
    decreases |s|, 1
  {
    hide SkipWs, ParseItems, ParseMembers, ParseNumber, JsonString.ParseString, Clean, Reads, ReadsCells;
    if NULL_TEXT <= s || FALSE_TEXT <= s || TRUE_TEXT <= s {
      t := WordReads(s, depth);
    } else if s[0] == QUOTE {
      var raw := StringRead(s);
      t := Quoted(raw);
      QuotedReads(s, raw, depth);
    } else if s[0] == MINUS || Digit(s[0]) {
      var l := NumberRead(s);
      t := Numeral(l);
      NumeralReads(s, l, depth);
    } else {
      PastFirst(s);
      var w := SkipSplit(s[1..]);
      var p := SkipWs(s[1..]);
      if s[0] == OPEN_ARRAY {
        if p[0] == CLOSE_ARRAY {
          t := List(Stop, w);
          EmptyReads(s, w, p, false, depth);
        } else {
          var c := ItemsRead(p, depth + 1);
          t := List(Prefixed(w, c), []);
          ContentReads(s, w, p, c, ParseItems(p, depth + 1).value, false, depth);
        }
      } else {
        if p[0] == CLOSE_OBJECT {
          t := Record(Stop, w);
          EmptyReads(s, w, p, true, depth);
        } else {
          var c := MembersRead(p, depth + 1);
          t := Record(Prefixed(w, c), []);
          ContentReads(s, w, p, c, ParseMembers(p, depth + 1).value, true, depth);
        }
      }
    }
  }

  lemma PastFirst(s: seq<byte>)
    requires Clean(s) && s[0] != 0
    ensures |s| > 1 && Clean(s[1..])
  {
  }

  lemma WordReads(s: seq<byte>, depth: nat) returns (t: Tree)
    requires Clean(s) && (NULL_TEXT <= s || FALSE_TEXT <= s || TRUE_TEXT <= s)
    ensures var r := ParseValue(s, depth); r.Some? && Reads(s, t, r.value.value, r.value.rest, depth)
  {
    hide SkipWs, ParseItems, ParseMembers, ParseNumber, JsonString.ParseString;
    if NULL_TEXT <= s {
      t := WordRead(s, Null, NULL_TEXT, depth);
    } else if FALSE_TEXT <= s {
      t := WordRead(s, False, FALSE_TEXT, depth);
    } else {
      t := WordRead(s, True, TRUE_TEXT, depth);
    }
  }

  lemma WordRead(s: seq<byte>, j: Json, word: seq<byte>, depth: nat) returns (t: Tree)
    requires Clean(s) && word <= s && word != [] && word[|word| - 1] != 0
    requires (j.Null? && word == NULL_TEXT) || (j.False? && word == FALSE_TEXT) || (j.True? && word == TRUE_TEXT)
    ensures Reads(s, t, j, s[|word|..], depth)
  {
    t := Word(j);
    assert s[|word| - 1] != 0;
    CleanRest(s, |word|);
    hide Clean;
    assert s == word + s[|word|..];
  }

  lemma QuotedReads(s: seq<byte>, raw: seq<byte>, depth: nat)
    requires s != [] && ParseString(s).Some? && NulFree(raw) && Literally(raw) == Some(ParseString(s).value.text)
    requires s == [QUOTE] + (raw + ([QUOTE] + ParseString(s).value.rest)) && Clean(ParseString(s).value.rest)
    ensures var p := ParseString(s).value; Reads(s, Quoted(raw), Text(p.text), p.rest, depth)
  {
    hide JsonString.ParseString, Clean, Literally;
  }

  lemma NumeralReads(s: seq<byte>, l: seq<byte>, depth: nat)
    requires Terminated(s) && ParseNumber(s).Some?
    requires var r := ParseNumber(s).value; Numeric(l) && r.value == Number(l) && s == l + r.rest && Clean(r.rest)
    ensures var r := ParseNumber(s).value; Reads(s, Numeral(l), r.value, r.rest, depth)
  {
    hide ParseNumber, Clean;
  }

  /** Blanks before the first part. */
  function Prefixed(w: seq<byte>, c: Cells): Cells { if c.Stop? then c else c.(before := w + c.before) }

  lemma PrefixedText(w: seq<byte>, c: Cells, keyed: bool, kids: Kids, rest: seq<byte>, depth: nat)
    requires Blanks(w) && ReadsCells(EmitCells(c, keyed, rest), c, keyed, kids, rest, depth)
    ensures ReadsCells(w + EmitCells(c, keyed, rest), Prefixed(w, c), keyed, kids, rest, depth)
  {
    hide Emit, More, Value, Fine, Clean, Literally, NulFree;
    var value := Emit(c.value, c.after + More(c.next, keyed, rest));
    var u := if keyed then [QUOTE] + (c.key + ([QUOTE] + (c.mid + ([COLON] + (c.colon + value))))) else value;
    assert EmitCells(c, keyed, rest) == c.before + u;
    assert EmitCells(Prefixed(w, c), keyed, rest) == (w + c.before) + u;
    hide EmitCells;
    Regrouped(w, c.before, u);
  }

  lemma Regrouped(x: seq<byte>, y: seq<byte>, z: seq<byte>)
    ensures x + (y + z) == (x + y) + z
  {
  }

  lemma EmptyReads(s: seq<byte>, w: seq<byte>, p: seq<byte>, keyed: bool, depth: nat)
    requires s != [] && s[0] == (if keyed then OPEN_OBJECT else OPEN_ARRAY) && depth < NESTING_LIMIT
    requires s[1..] == w + p && Blanks(w) && Clean(p) && p[0] == Closing(keyed)
    ensures Reads(s, if keyed then Record(Stop, w) else List(Stop, w), if keyed then Object(End) else Array(End),
      p[1..], depth)
  {
    PastFirst(p);
    hide Clean;
    assert p == [p[0]] + p[1..];
    assert s == [s[0]] + s[1..];
    assert Values(Stop, keyed) == End && FineCells(Stop, keyed, depth + 1);
    var t := if keyed then Record(Stop, w) else List(Stop, w);
    assert Emit(t, p[1..]) == [s[0]] + EmitCells(Stop, keyed, w + ([Closing(keyed)] + p[1..]));
  }

  lemma ContentReads(s: seq<byte>, w: seq<byte>, p: seq<byte>, c: Cells, k: KidsResult, keyed: bool, depth: nat)
    requires s != [] && s[0] == (if keyed then OPEN_OBJECT else OPEN_ARRAY) && depth < NESTING_LIMIT
    requires s[1..] == w + p && Blanks(w) && Clean(k.rest)
    requires ReadsCells(p, c, keyed, k.kids, [Closing(keyed)] + k.rest, depth + 1)
    ensures var d := Prefixed(w, c);
      Reads(s, if keyed then Record(d, []) else List(d, []), if keyed then Object(k.kids) else Array(k.kids), k.rest,
        depth)
  {
    hide Clean, Blanks, EmitCells, Values, FineCells;
    var close := [Closing(keyed)] + k.rest;
    PrefixedText(w, c, keyed, k.kids, close, depth + 1);
    NoBlanks();
    assert [] + close == close;
    Opened(s);
  }

  lemma NoBlanks()
    ensures Blanks([])
  {
  }

  lemma Opened(s: seq<byte>)
    requires s != []
    ensures s == [s[0]] + s[1..]
  {
  }

  /** What stands behind a part: the comma and the next part, or the end. */
  ghost predicate MoreReads(q: seq<byte>, c: Cells, keyed: bool, kids: Kids, rest: seq<byte>, depth: nat) {
    && q != [] && Clean(rest)
    && if q[0] == COMMA then ReadsCells(q[1..], c, keyed, kids, [Closing(keyed)] + rest, depth)
       else c == Stop && kids == End && q == [Closing(keyed)] + rest
  }

  lemma MoreText(q: seq<byte>, c: Cells, keyed: bool, kids: Kids, rest: seq<byte>, depth: nat)
    requires MoreReads(q, c, keyed, kids, rest, depth)
    ensures q == More(c, keyed, [Closing(keyed)] + rest) && FineCells(c, keyed, depth) && Values(c, keyed) == kids
    ensures Clean([Closing(keyed)] + rest)
  {
    hide EmitCells, Fine, Value;
    assert q == [q[0]] + q[1..];
  }

  lemma {:induction false} ItemsRead(s: seq<byte>, depth: nat) returns (c: Cells)
    requires Clean(s) && ParseItems(s, depth).Some?
    ensures var k := ParseItems(s, depth).value;
      Clean(k.rest) && ReadsCells(s, c, false, k.kids, [CLOSE_ARRAY] + k.rest, depth)
    decreases |s|, 2
  {
    hide SkipWs, ParseValue, Clean, Reads, ReadsCells, MoreReads;
    var before := SkipSplit(s);
    var u := SkipWs(s);
    var t := ValueReads(u, depth);
    var r := ParseValue(u, depth).value;
    ReadsParts(u, t, r, depth);
    var after := SkipSplit(r.rest);
    var q := SkipWs(r.rest);
    PastFirst(q);
    var next, kids := Stop, End;
    if q[0] == COMMA {
      next := ItemsRead(q[1..], depth);
      kids := ParseItems(q[1..], depth).value.kids;
    }
    var k := ParseItems(s, depth).value;
    MoreFollows(q, next, false, kids, k.rest, depth);
    c := Cell(before, [], [], [], t, after, next);
    ItemReads(s, c, r, q, kids, k.rest, depth);
  }

  lemma ReadsParts(s: seq<byte>, t: Tree, r: Result, depth: nat)
    requires Reads(s, t, r.value, r.rest, depth)
    ensures Clean(r.rest) && s == Emit(t, r.rest)
  {
  }

  lemma MoreFollows(q: seq<byte>, c: Cells, keyed: bool, kids: Kids, rest: seq<byte>, depth: nat)
    requires q != [] && Clean(rest)
    requires if q[0] == COMMA then ReadsCells(q[1..], c, keyed, kids, [Closing(keyed)] + rest, depth)
             else c == Stop && kids == End && q[0] == Closing(keyed) && q[1..] == rest
    ensures MoreReads(q, c, keyed, kids, rest, depth)
  {
    assert q == [q[0]] + q[1..];
  }

  lemma ItemReads(s: seq<byte>, c: Cells, r: Result, q: seq<byte>, kids: Kids, rest: seq<byte>, depth: nat)
    requires c.Cell? && Blanks(c.before) && Blanks(c.after)
    requires s == c.before + Emit(c.value, r.rest) && r.rest == c.after + q
    requires Reads(Emit(c.value, r.rest), c.value, r.value, r.rest, depth)
    requires MoreReads(q, c.next, false, kids, rest, depth)
    ensures ReadsCells(s, c, false, Kid([], r.value, kids), [CLOSE_ARRAY] + rest, depth)
  {
    MoreText(q, c.next, false, kids, rest, depth);
    hide More, Emit, Clean, MoreReads;
  }

  lemma {:induction false} MembersRead(s: seq<byte>, depth: nat) returns (c: Cells)
    requires Clean(s) && ParseMembers(s, depth).Some?
    ensures var k := ParseMembers(s, depth).value;
      Clean(k.rest) && ReadsCells(s, c, true, k.kids, [CLOSE_OBJECT] + k.rest, depth)
    decreases |s|, 2
  {
    hide SkipWs, ParseValue, Clean, Reads, ReadsCells, MoreReads, JsonString.ParseString, Literally, NulFree;
    var before := SkipSplit(s);
    var p := SkipWs(s);
    var raw := StringRead(p);
    var key := ParseString(p).value;
    var mid := SkipSplit(key.rest);
    var x := SkipWs(key.rest);
    PastFirst(x);
    var colon := SkipSplit(x[1..]);
    var u := SkipWs(x[1..]);
    StringRest(p);
    var t := ValueReads(u, depth);
    var r := ParseValue(u, depth).value;
    ReadsParts(u, t, r, depth);
    var after := SkipSplit(r.rest);
    var q := SkipWs(r.rest);
    PastFirst(q);
    var next, kids := Stop, End;
    if q[0] == COMMA {
      next := MembersRead(q[1..], depth);
      kids := ParseMembers(q[1..], depth).value.kids;
    }
    var k := ParseMembers(s, depth).value;
    MoreFollows(q, next, true, kids, k.rest, depth);
    c := Cell(before, raw, mid, colon, t, after, next);
    assert x == [COLON] + x[1..];
    MemberReads(s, c, r, q, kids, k.rest, depth);
  }

  lemma MemberReads(s: seq<byte>, c: Cells, r: Result, q: seq<byte>, kids: Kids, rest: seq<byte>, depth: nat)
    requires c.Cell? && Blanks(c.before) && Blanks(c.after) && Blanks(c.mid) && Blanks(c.colon)
    requires NulFree(c.key) && Literally(c.key).Some? && r.rest == c.after + q
    requires var value := Emit(c.value, r.rest);
      s == c.before + ([QUOTE] + (c.key + ([QUOTE] + (c.mid + ([COLON] + (c.colon + value))))))
    requires Reads(Emit(c.value, r.rest), c.value, r.value, r.rest, depth)
    requires MoreReads(q, c.next, true, kids, rest, depth)
    ensures ReadsCells(s, c, true, Kid(Literally(c.key).value, r.value, kids), [CLOSE_OBJECT] + rest, depth)
  {
    MoreText(q, c.next, true, kids, rest, depth);
    hide More, Emit, Clean, MoreReads, NulFree, Literally;
  }

  // ---------- documents

  const MARK: seq<byte> := [0xef, 0xbb, 0xbf]

  /** A document: a byte order mark or none, blanks, a tree, blanks. */
  datatype Document = Document(marked: bool, before: seq<byte>, tree: Tree, after: seq<byte>)

  function Rendered(d: Document): seq<byte> { (if d.marked then MARK else []) + (d.before + Emit(d.tree, d.after)) }

  ghost predicate WellFormed(d: Document) { Blanks(d.before) && Fine(d.tree, 0) && Blanks(d.after) }

  /** Whatever follows a tree is carried along. */
  lemma {:induction false} EmitMore(t: Tree, rest: seq<byte>, more: seq<byte>)
    ensures Emit(t, rest + more) == Emit(t, rest) + more
    decreases t, 0
  {
    match t
    case List(items, w) =>
      CellsMore(items, false, w + ([CLOSE_ARRAY] + rest), more);
      hide EmitCells;
      assert w + ([CLOSE_ARRAY] + (rest + more)) == w + ([CLOSE_ARRAY] + rest) + more;
    case Record(members, w) =>
      CellsMore(members, true, w + ([CLOSE_OBJECT] + rest), more);
      hide EmitCells;
      assert w + ([CLOSE_OBJECT] + (rest + more)) == w + ([CLOSE_OBJECT] + rest) + more;
    case _ =>
  }

  lemma {:induction false} CellsMore(c: Cells, keyed: bool, rest: seq<byte>, more: seq<byte>)
    ensures EmitCells(c, keyed, rest + more) == EmitCells(c, keyed, rest) + more
    ensures More(c, keyed, rest + more) == More(c, keyed, rest) + more
    decreases c, 1
  {
    if c.Cell? {
      CellsMore(c.next, keyed, rest, more);
      var q := More(c.next, keyed, rest);
      EmitMore(c.value, c.after + q, more);
      hide Emit;
      CellMore(c, q, Emit(c.value, c.after + q), more);
    }
  }

  lemma CellMore(c: Cells, q: seq<byte>, value: seq<byte>, more: seq<byte>)
    requires c.Cell?
    ensures c.after + (q + more) == c.after + q + more
    ensures c.before + (value + more) == c.before + value + more
    ensures c.before + ([QUOTE] + (c.key + ([QUOTE] + (c.mid + ([COLON] + (c.colon + (value + more)))))))
      == c.before + ([QUOTE] + (c.key + ([QUOTE] + (c.mid + ([COLON] + (c.colon + value)))))) + more
  {
  }

  lemma DocumentParses(d: Document)
    requires WellFormed(d)
    ensures var r := Parse(Rendered(d), true); r.Some? && r.value.value == Value(d.tree)
  {
    hide ParseValue, Value, Fine, SkipWs, Emit, Parse;
    var s := Emit(d.tree, d.after + [0]);
    EmitMore(d.tree, d.after, [0]);
    Continued(if d.marked then MARK else [], d.before, Emit(d.tree, d.after));
    BlankBehind(d.tree, d.after, [0]);
    EmitEnds(d.tree, d.after + [0], 0);
    TreeParses(d.tree, d.after + [0], 0);
    SurroundedParses(Rendered(d), d.marked, d.before, s, d.after, Value(d.tree));
  }

  lemma SurroundedParses(text: seq<byte>, marked: bool, before: seq<byte>, s: seq<byte>, after: seq<byte>, j: Json)
    requires Blanks(before) && Blanks(after) && Terminated(s) && |s| > 1 && s[0] > 32 && s[0] != 0xef
    requires ParseValue(s, 0) == Some(Result(j, after + [0]))
    requires text + [0] == (if marked then MARK else []) + (before + s)
    ensures Parse(text, true) == Some(Result(j, after + [0]))
  {
    hide ParseValue, SkipWs, SkipBom, Blanks;
    BlanksAreBlank(before);
    MarkSkipped(marked, before, s);
    Visible(before, s);
    TailSkipped(after);
  }

  lemma Continued(mark: seq<byte>, w: seq<byte>, s: seq<byte>)
    ensures (mark + (w + s)) + [0] == mark + (w + (s + [0]))
  {
  }

  lemma MarkSkipped(marked: bool, w: seq<byte>, s: seq<byte>)
    requires Blanks(w) && Terminated(s) && |s| > 1 && s[0] != 0xef
    ensures var t := (if marked then MARK else []) + (w + s); Terminated(t) && SkipBom(t) == w + s
  {
    var t := (if marked then MARK else []) + (w + s);
    if marked {
      assert t[3..] == w + s;
    } else {
      assert t == w + s;
      assert t[0] != 0xef;
    }
  }

  lemma {:induction false} TailSkipped(w: seq<byte>)
    requires Blanks(w)
    ensures SkipWs(w + [0]) == [0]
  {
    if w == [] {
      assert w + [0] == [0];
    } else {
      assert (w + [0])[1..] == w[1..] + [0];
      TailSkipped(w[1..]);
    }
  }

  lemma DocumentRead(text: seq<byte>) returns (d: Document)
    requires NulFree(text) && Parse(text, true).Some?
    ensures WellFormed(d) && Rendered(d) == text && Value(d.tree) == Parse(text, true).value.value
  {
    hide ParseValue, SkipWs, Emit, Fine, Value;
    var s := text + [0];
    assert Clean(s);
    var u := SkipBom(s);
    assert Clean(u);
    var marked := u != s;
    assert s == (if marked then MARK else []) + u;
    var before := SkipSplit(u);
    var t := ValueReads(SkipWs(u), 0);
    var r := ParseValue(SkipWs(u), 0).value;
    ReadsParts(SkipWs(u), t, r, 0);
    var after := SkipSplit(r.rest);
    OnlyEnd(SkipWs(r.rest));
    d := Document(marked, before, t, after);
    EmitMore(t, after, [0]);
    Ended(text, (if marked then MARK else []), before, Emit(t, after));
  }

  lemma OnlyEnd(s: seq<byte>)
    requires Clean(s) && s[0] == 0
    ensures s == [0]
  {
  }

  lemma Ended(text: seq<byte>, mark: seq<byte>, w: seq<byte>, s: seq<byte>)
    requires text + [0] == mark + (w + (s + [0]))
    ensures text == mark + (w + s)
  {
    Continued(mark, w, s);
    assert text == (text + [0])[..|text|];
    assert mark + (w + s) == (mark + (w + s) + [0])[..|text|];
  }
}

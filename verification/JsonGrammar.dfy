/** The texts that cJSON accepts, as concrete syntax: every blank, every number and every string literal as written. */
module JsonGrammar {
  import opened Common
  import opened JsonString
  import opened Json
  import opened JsonRoundTrip

  datatype Tree =
    | Word(word: Json)
    | Numeral(lexeme: seq<byte>)
    | Quoted(raw: seq<byte>)
    | List(items: Cells, inside: seq<byte>)
    | Record(members: Cells, inside: seq<byte>)

  /** The parts of an array or object: blanks, key with the blanks before and behind its colon, value, blanks. */
  datatype Cells =
    | Stop
    | Cell(
        before: seq<byte>, key: seq<byte>, mid: seq<byte>, colon: seq<byte>, value: Tree, after: seq<byte>, next: Cells)

  // ---------- text and meaning

  /** The text of a tree, followed by `rest`. */
  function Emit(t: Tree, rest: seq<byte>): seq<byte>
    decreases t, 0
  {
    match t
    case Word(j) => (if j.Null? then NULL_TEXT else if j.False? then FALSE_TEXT else TRUE_TEXT) + rest
    case Numeral(l) => l + rest
    case Quoted(raw) => [QUOTE] + (raw + ([QUOTE] + rest))
    case List(items, w) => [OPEN_ARRAY] + EmitCells(items, false, w + ([CLOSE_ARRAY] + rest))
    case Record(members, w) => [OPEN_OBJECT] + EmitCells(members, true, w + ([CLOSE_OBJECT] + rest))
  }

  function EmitCells(c: Cells, keyed: bool, rest: seq<byte>): seq<byte>
    decreases c, 1
  {
    if c.Stop? then rest
    else
      var value := Emit(c.value, c.after + More(c.next, keyed, rest));
      c.before + if keyed then [QUOTE] + (c.key + ([QUOTE] + (c.mid + ([COLON] + (c.colon + value))))) else value
  }

  /** What follows a part: the next one behind its comma, or `rest`. */
  function More(c: Cells, keyed: bool, rest: seq<byte>): seq<byte>
    decreases c, 2
  {
    if c.Stop? then rest else [COMMA] + EmitCells(c, keyed, rest)
  }

  /** The text behind the opening quote of a literal, up to and with the closing one. */
  function Literally(raw: seq<byte>): Option<seq<byte>> {
    var t := raw + [QUOTE];
    if Close(t) != Some(|raw|) then None else Decode(t, |raw|)
  }

  function Value(t: Tree): Json
    decreases t, 0
  {
    match t
    case Word(j) => j
    case Numeral(l) => Number(l)
    case Quoted(raw) => Text(if Literally(raw).Some? then Literally(raw).value else [])
    case List(items, _) => Array(Values(items, false))
    case Record(members, _) => Object(Values(members, true))
  }

  function Values(c: Cells, keyed: bool): Kids
    decreases c, 1
  {
    if c.Stop? then End
    else
      var key := if keyed && Literally(c.key).Some? then Literally(c.key).value else [];
      Kid(key, Value(c.value), Values(c.next, keyed))
  }

  // ---------- which trees are well formed

  predicate Blanks(w: seq<byte>) { forall i | 0 <= i < |w| :: 0 < w[i] <= 32 }

  /** A number as strtod takes it, of at most 63 bytes. */
  predicate Numeric(l: seq<byte>) {
    && 0 < |l| <= 63 && (l[0] == MINUS || Digit(l[0])) && Strtod(l) == |l|
    && forall i | 0 <= i < |l| :: NumberByte(l[i])
  }

  ghost predicate Fine(t: Tree, depth: nat)
    decreases t, 0
  {
    match t
    case Word(j) => j.Null? || j.False? || j.True?
    case Numeral(l) => Numeric(l)
    case Quoted(raw) => NulFree(raw) && Literally(raw).Some?
    case List(items, w) =>
      depth < NESTING_LIMIT && Blanks(w) && (items.Cell? ==> w == []) && FineCells(items, false, depth + 1)
    case Record(members, w) =>
      depth < NESTING_LIMIT && Blanks(w) && (members.Cell? ==> w == []) && FineCells(members, true, depth + 1)
  }

  ghost predicate FineCells(c: Cells, keyed: bool, depth: nat)
    decreases c, 1
  {
    c.Cell? ==>
      && Blanks(c.before) && Blanks(c.after) && Fine(c.value, depth) && FineCells(c.next, keyed, depth)
      && (keyed ==> Blanks(c.mid) && Blanks(c.colon) && NulFree(c.key) && Literally(c.key).Some?)
  }

  /** What may stand behind a tree. */
  ghost predicate Behind(t: Tree, rest: seq<byte>) { Terminated(rest) && (t.Numeral? ==> !NumberByte(rest[0])) }

  // ---------- every well formed tree is accepted

  lemma NumeralParses(l: seq<byte>, rest: seq<byte>, depth: nat)
    requires Numeric(l) && Terminated(rest) && !NumberByte(rest[0])
    ensures Terminated(l + rest) && ParseValue(l + rest, depth) == Some(Result(Number(l), rest))
  {
    hide ParseItems, ParseMembers, JsonString.ParseString, SkipWs, Strtod;
    RunNumeral(l, rest, 63);
    assert (l + rest)[..|l|] == l && (l + rest)[|l|..] == rest;
    hide Run;
    NotKeyword(l + rest);
  }

  lemma {:induction false} RunNumeral(l: seq<byte>, rest: seq<byte>, max: nat)
    requires |l| <= max && Follows(rest) && forall i | 0 <= i < |l| :: NumberByte(l[i])
    ensures Run(l + rest, max) == |l|
  {
    if l == [] {
      assert l + rest == rest;
    } else {
      assert (l + rest)[1..] == l[1..] + rest;
      RunNumeral(l[1..], rest, max - 1);
    }
  }

  /** Only what stands before the closing quote matters. */
  lemma {:induction false} CloseBefore(t: seq<byte>, u: seq<byte>, e: nat)
    requires Close(t) == Some(e)
    ensures Close(t + u) == Some(e)
    decreases |t|
  {
    if t[0] == BACKSLASH {
      assert (t + u)[2..] == t[2..] + u;
      CloseBefore(t[2..], u, e - 2);
    } else if t[0] != QUOTE {
      assert (t + u)[1..] == t[1..] + u;
      CloseBefore(t[1..], u, e - 1);
    }
  }

  lemma {:induction false} DecodeBefore(t: seq<byte>, u: seq<byte>, e: nat)
    requires e < |t|
    ensures Decode(t + u, e) == Decode(t, e)
    decreases e
  {
    if e > 0 {
      TurnBefore(t, u, e);
      hide Turn;
      var r := Turn(t, e);
      if r.Some? && r.value.length <= e {
        var n := r.value.length;
        assert (t + u)[n..] == t[n..] + u;
        DecodeBefore(t[n..], u, e - n);
      }
    }
  }

  lemma TurnBefore(t: seq<byte>, u: seq<byte>, e: nat)
    requires 0 < e < |t|
    ensures Turn(t + u, e) == Turn(t, e)
  {
    assert (t + u)[0] == t[0] && (t + u)[1] == t[1];
    if e >= 6 {
      HexBefore(t, u, 2);
      if e >= 12 {
        HexBefore(t, u, 8);
      }
    }
  }

  lemma HexBefore(t: seq<byte>, u: seq<byte>, k: nat)
    requires k + 4 <= |t|
    ensures Hex4((t + u)[k..]) == Hex4(t[k..])
  {
    assert forall i | 0 <= i < 4 :: (t + u)[k..][i] == t[k..][i];
  }

  /** A literal is read up to its closing quote, whatever follows. */
  lemma LiteralParses(raw: seq<byte>, rest: seq<byte>)
    requires Literally(raw).Some?
    ensures ParseString([QUOTE] + (raw + ([QUOTE] + rest))) == Some(Parsed(Literally(raw).value, rest))
  {
    var t, s := raw + [QUOTE], [QUOTE] + (raw + ([QUOTE] + rest));
    assert s[1..] == t + rest;
    CloseBefore(t, rest, |raw|);
    DecodeBefore(t, rest, |raw|);
    assert (t + rest)[|raw| + 1..] == rest;
    hide Close, Decode;
  }

  /** The text of a tree begins visibly and ends as `rest` does. */
  lemma {:induction false} EmitEnds(t: Tree, rest: seq<byte>, depth: nat)
    requires Fine(t, depth) && Terminated(rest)
    ensures var s := Emit(t, rest);
      && Terminated(s) && s[0] > 32 && s[0] != CLOSE_ARRAY && s[0] != CLOSE_OBJECT && s[0] != COMMA && s[0] != 0xef
      && (t.Quoted? ==> s[0] == QUOTE) && (t.List? ==> s[0] == OPEN_ARRAY) && (t.Record? ==> s[0] == OPEN_OBJECT)
    decreases t, 0
  {
    match t
    case List(items, w) => CellsEnd(items, false, w + ([CLOSE_ARRAY] + rest), depth + 1);
    case Record(members, w) => CellsEnd(members, true, w + ([CLOSE_OBJECT] + rest), depth + 1);
    case _ =>
  }

  lemma {:induction false} CellsEnd(c: Cells, keyed: bool, rest: seq<byte>, depth: nat)
    requires FineCells(c, keyed, depth) && Terminated(rest)
    ensures Terminated(EmitCells(c, keyed, rest)) && Terminated(More(c, keyed, rest))
    decreases c, 1
  {
    if c.Cell? {
      CellsEnd(c.next, keyed, rest, depth);
      EmitEnds(c.value, c.after + More(c.next, keyed, rest), depth);
    }
  }

  lemma {:induction false} TreeParses(t: Tree, rest: seq<byte>, depth: nat)
    requires Fine(t, depth) && Behind(t, rest)
    ensures Terminated(Emit(t, rest)) && ParseValue(Emit(t, rest), depth) == Some(Result(Value(t), rest))
    decreases t, 1
  {
    hide ParseValue;
    EmitEnds(t, rest, depth);
    match t
    case Word(j) => WordParses(j, rest, depth);
    case Numeral(l) => NumeralParses(l, rest, depth);
    case Quoted(raw) => QuotedParses(raw, rest, depth);
    case List(items, w) => ListParses(items, w, rest, depth);
    case Record(members, w) => RecordParses(members, w, rest, depth);
  }

  lemma WordParses(j: Json, rest: seq<byte>, depth: nat)
    requires (j.Null? || j.False? || j.True?) && Terminated(rest)
    ensures var s := Emit(Word(j), rest); Terminated(s) && ParseValue(s, depth) == Some(Result(j, rest))
  {
    hide SkipWs, ParseItems, ParseMembers, ParseNumber, JsonString.ParseString;
    var s := Emit(Word(j), rest);
    assert NULL_TEXT <= s ==> s[0] == 110;
    assert FALSE_TEXT <= s ==> s[0] == 102;
    match j
    case Null => assert NULL_TEXT <= s && s[4..] == rest;
    case False => assert FALSE_TEXT <= s && s[5..] == rest;
    case True => assert TRUE_TEXT <= s && s[4..] == rest;
  }

  lemma QuotedParses(raw: seq<byte>, rest: seq<byte>, depth: nat)
    requires Literally(raw).Some? && Terminated(rest)
    ensures var s := Emit(Quoted(raw), rest);
      Terminated(s) && ParseValue(s, depth) == Some(Result(Text(Literally(raw).value), rest))
  {
    hide SkipWs, ParseItems, ParseMembers, ParseNumber, JsonString.ParseString, Literally;
    LiteralParses(raw, rest);
    NotKeyword(Emit(Quoted(raw), rest));
  }

  lemma BlanksAreBlank(w: seq<byte>)
    requires Blanks(w)
    ensures Blank(w)
  {
  }

  lemma {:induction false} ListParses(items: Cells, w: seq<byte>, rest: seq<byte>, depth: nat)
    requires Fine(List(items, w), depth) && Terminated(rest)
    ensures var s := Emit(List(items, w), rest);
      Terminated(s) && ParseValue(s, depth) == Some(Result(Array(Values(items, false)), rest))
    decreases items, 3
  {
    var close := [CLOSE_ARRAY] + rest;
    var body := EmitCells(items, false, w + close);
    assert Emit(List(items, w), rest) == [OPEN_ARRAY] + body;
    CellsEnd(items, false, w + close, depth + 1);
    BlanksAreBlank(w);
    hide ParseValue, ParseItems, SkipWs, Emit;
    ArrayStep(body, depth);
    Visible(w, close);
    assert close[1..] == rest;
    if items.Cell? {
      assert w + close == close;
      CellsVisible(items, false, close, depth + 1);
      ItemsParse(items, close, depth + 1);
    }
  }

  /** The first visible byte of the parts, and how the parser gets there. */
  lemma CellsVisible(c: Cells, keyed: bool, rest: seq<byte>, depth: nat)
    requires c.Cell? && FineCells(c, keyed, depth) && Terminated(rest)
    ensures Terminated(EmitCells(c, keyed, rest))
    ensures var u := SkipWs(EmitCells(c, keyed, rest));
      u[0] > 32 && u[0] != CLOSE_ARRAY && u[0] != CLOSE_OBJECT && SkipWs(u) == u
  {
    var value := Emit(c.value, c.after + More(c.next, keyed, rest));
    var u := if keyed then [QUOTE] + (c.key + ([QUOTE] + (c.mid + ([COLON] + (c.colon + value))))) else value;
    assert EmitCells(c, keyed, rest) == c.before + u;
    CellsEnd(c.next, keyed, rest, depth);
    EmitEnds(c.value, c.after + More(c.next, keyed, rest), depth);
    BlanksAreBlank(c.before);
    hide Emit, More, SkipWs, EmitCells;
    Visible(c.before, u);
  }

  /** The parser skips the same blanks once or twice. */
  lemma SameItems(s: seq<byte>, depth: nat)
    requires Terminated(s) && SkipWs(SkipWs(s)) == SkipWs(s)
    ensures ParseItems(SkipWs(s), depth) == ParseItems(s, depth)
    ensures ParseMembers(SkipWs(s), depth) == ParseMembers(s, depth)
  {
    hide SkipWs, ParseValue, JsonString.ParseString;
  }

  /** One element: the value, the blanks behind it and the byte that follows. */
  lemma ItemsUnfold(s: seq<byte>, v: Json, a: seq<byte>, q: seq<byte>, depth: nat)
    requires Terminated(s) && Terminated(q) && q[0] > 32 && Blanks(a)
    requires ParseValue(SkipWs(s), depth) == Some(Result(v, a + q))
    ensures ParseItems(s, depth) ==
      if q[0] == COMMA && |q| > 1 then
        var more := ParseItems(q[1..], depth);
        if more.None? then None else Some(KidsResult(Kid([], v, more.value.kids), more.value.rest))
      else if q[0] == CLOSE_ARRAY then Some(KidsResult(Kid([], v, End), q[1..]))
      else None
  {
    BlanksAreBlank(a);
    Visible(a, q);
    hide SkipWs, ParseValue;
  }

  lemma {:induction false} ItemsParse(c: Cells, close: seq<byte>, depth: nat)
    requires c.Cell? && FineCells(c, false, depth) && Terminated(close) && |close| > 1 && close[0] == CLOSE_ARRAY
    ensures var s := EmitCells(c, false, close);
      && Terminated(s) && ParseItems(SkipWs(s), depth) == ParseItems(s, depth)
      && ParseItems(s, depth) == Some(KidsResult(Values(c, false), close[1..]))
    decreases c, 2
  {
    var q := More(c.next, false, close);
    var value := Emit(c.value, c.after + q);
    assert EmitCells(c, false, close) == c.before + value;
    assert Values(c, false) == Kid([], Value(c.value), Values(c.next, false));
    CellsEnd(c.next, false, close, depth);
    EmitEnds(c.value, c.after + q, depth);
    CellsVisible(c, false, close, depth);
    BlanksAreBlank(c.before);
    MoreStart(c.next, false, close);
    BlankBehind(c.value, c.after, q);
    hide Emit, SkipWs, ParseValue, ParseItems, EmitCells, Values, Value;
    Visible(c.before, value);
    SameItems(c.before + value, depth);
    TreeParses(c.value, c.after + q, depth);
    ItemsUnfold(c.before + value, Value(c.value), c.after, q, depth);
    if c.next.Cell? {
      ItemsParse(c.next, close, depth);
    }
    NoValues();
  }

  lemma NoValues()
    ensures Values(Stop, false) == End == Values(Stop, true)
  {
  }

  lemma MoreStart(c: Cells, keyed: bool, rest: seq<byte>)
    requires Terminated(rest) && rest[0] > 32 && Terminated(More(c, keyed, rest))
    ensures var q := More(c, keyed, rest);
      if c.Stop? then q == rest else q[0] == COMMA && q[1..] == EmitCells(c, keyed, rest) && |q| > 1
  {
    hide EmitCells;
  }

  /** Blanks and punctuation do not go on with a number. */
  lemma BlankBehind(t: Tree, w: seq<byte>, q: seq<byte>)
    requires Blanks(w) && Terminated(q) && !NumberByte(q[0])
    ensures Behind(t, w + q)
  {
  }

  lemma {:induction false} RecordParses(members: Cells, w: seq<byte>, rest: seq<byte>, depth: nat)
    requires Fine(Record(members, w), depth) && Terminated(rest)
    ensures var s := Emit(Record(members, w), rest);
      Terminated(s) && ParseValue(s, depth) == Some(Result(Object(Values(members, true)), rest))
    decreases members, 3
  {
    var close := [CLOSE_OBJECT] + rest;
    var body := EmitCells(members, true, w + close);
    assert Emit(Record(members, w), rest) == [OPEN_OBJECT] + body;
    CellsEnd(members, true, w + close, depth + 1);
    BlanksAreBlank(w);
    hide ParseValue, ParseMembers, SkipWs, Emit;
    ObjectStep(body, depth);
    Visible(w, close);
    assert close[1..] == rest;
    if members.Cell? {
      assert w + close == close;
      CellsVisible(members, true, close, depth + 1);
      MembersParse(members, close, depth + 1);
    }
  }

  /** The key of a member, up to its value. */
  lemma KeyParses(c: Cells, value: seq<byte>, depth: nat)
    requires c.Cell? && Blanks(c.before) && Blanks(c.mid) && Blanks(c.colon) && Literally(c.key).Some?
    requires Terminated(value) && value[0] > 32
    ensures var u := [QUOTE] + (c.key + ([QUOTE] + (c.mid + ([COLON] + (c.colon + value)))));
      var colon := [COLON] + (c.colon + value);
      && Terminated(c.before + u) && SkipWs(c.before + u) == u
      && ParseString(u) == Some(Parsed(Literally(c.key).value, c.mid + colon))
      && Terminated(c.mid + colon) && SkipWs(c.mid + colon) == colon && colon[1..] == c.colon + value
      && Terminated(c.colon + value) && SkipWs(c.colon + value) == value
  {
    hide JsonString.ParseString, Literally, SkipWs;
    var colon := [COLON] + (c.colon + value);
    var u := [QUOTE] + (c.key + ([QUOTE] + (c.mid + colon)));
    BlanksAreBlank(c.before);
    BlanksAreBlank(c.mid);
    BlanksAreBlank(c.colon);
    LiteralParses(c.key, c.mid + colon);
    Visible(c.colon, value);
    Visible(c.mid, colon);
    Visible(c.before, u);
    assert colon[1..] == c.colon + value;
  }

  /** One member: its key, its value, the blanks behind it and the byte that follows. */
  lemma MembersUnfold(c: Cells, value: seq<byte>, v: Json, q: seq<byte>, depth: nat)
    requires c.Cell? && Blanks(c.before) && Blanks(c.mid) && Blanks(c.colon) && Literally(c.key).Some?
    requires Terminated(value) && value[0] > 32 && Terminated(q) && q[0] > 32 && Blanks(c.after)
    requires ParseValue(value, depth) == Some(Result(v, c.after + q))
    ensures var s := c.before + ([QUOTE] + (c.key + ([QUOTE] + (c.mid + ([COLON] + (c.colon + value))))));
      && Terminated(s) && ParseMembers(s, depth) ==
      if q[0] == COMMA && |q| > 1 then
        var more := ParseMembers(q[1..], depth);
        if more.None? then None
        else Some(KidsResult(Kid(Literally(c.key).value, v, more.value.kids), more.value.rest))
      else if q[0] == CLOSE_OBJECT then Some(KidsResult(Kid(Literally(c.key).value, v, End), q[1..]))
      else None
  {
    KeyParses(c, value, depth);
    BlanksAreBlank(c.after);
    Visible(c.after, q);
    hide SkipWs, ParseValue, JsonString.ParseString, Literally;
  }

  lemma {:induction false} MembersParse(c: Cells, close: seq<byte>, depth: nat)
    requires c.Cell? && FineCells(c, true, depth) && Terminated(close) && |close| > 1 && close[0] == CLOSE_OBJECT
    ensures var s := EmitCells(c, true, close);
      && Terminated(s) && ParseMembers(SkipWs(s), depth) == ParseMembers(s, depth)
      && ParseMembers(s, depth) == Some(KidsResult(Values(c, true), close[1..]))
    decreases c, 2
  {
    var q := More(c.next, true, close);
    var value := Emit(c.value, c.after + q);
    var s := c.before + ([QUOTE] + (c.key + ([QUOTE] + (c.mid + ([COLON] + (c.colon + value))))));
    assert EmitCells(c, true, close) == s;
    assert Values(c, true) == Kid(Literally(c.key).value, Value(c.value), Values(c.next, true));
    CellsEnd(c.next, true, close, depth);
    EmitEnds(c.value, c.after + q, depth);
    CellsVisible(c, true, close, depth);
    MoreStart(c.next, true, close);
    BlankBehind(c.value, c.after, q);
    hide Emit, SkipWs, ParseValue, ParseMembers, EmitCells, Values, Value, Literally;
    SameItems(s, depth);
    TreeParses(c.value, c.after + q, depth);
    MembersUnfold(c, value, Value(c.value), q, depth);
    if c.next.Cell? {
      MembersParse(c.next, close, depth);
    }
    NoValues();
  }
}

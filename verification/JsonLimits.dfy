/** Which documents of RFC 8259 cJSON accepts: all but those beyond its limits. */
module JsonLimits {
  import opened Common
  import opened JsonString
  import opened Json
  import opened JsonRoundTrip
  import opened JsonMinify
  import opened JsonGrammar
  import opened JsonAccepted
  import opened JsonLiteral
  import opened JsonNumeral
  import opened JsonStandard

  const NUMBER_LIMIT: nat := 63

  // ---------- the standard

  /** Space, tab, line feed and carriage return (section 2). */
  ghost predicate Whites(w: seq<byte>) { forall i | 0 <= i < |w| :: w[i] in {32, 9, 10, 13} }

  ghost predicate IsNumber(l: seq<byte>) { exists n :: RegularNumber(n) && SpelledNumber(n) == l }
  ghost predicate IsString(raw: seq<byte>) { exists cs :: AllRegular(cs) && SpelledAll(cs) == raw }

  ghost predicate Standard(t: Tree)
    decreases t, 0
  {
    match t
    case Word(j) => j.Null? || j.False? || j.True?
    case Numeral(l) => IsNumber(l)
    case Quoted(raw) => IsString(raw)
    case List(items, w) => Whites(w) && (items.Cell? ==> w == []) && StandardCells(items, false)
    case Record(members, w) => Whites(w) && (members.Cell? ==> w == []) && StandardCells(members, true)
  }

  ghost predicate StandardCells(c: Cells, keyed: bool)
    decreases c, 1
  {
    c.Cell? ==>
      && Whites(c.before) && Whites(c.after) && Standard(c.value) && StandardCells(c.next, keyed)
      && (keyed ==> Whites(c.mid) && Whites(c.colon) && IsString(c.key))
  }

  // ---------- the limits of cJSON

  /** A string whose surrogates come in pairs. */
  ghost predicate Paired(raw: seq<byte>) {
    exists cs :: AllRegular(cs) && SpelledAll(cs) == raw && Meant(cs).Some?
  }

  /** Arrays and objects nest to at most 1000, numbers have at most 63 bytes and surrogates are paired. */
  ghost predicate Within(t: Tree, depth: nat)
    decreases t, 0
  {
    match t
    case Word(_) => true
    case Numeral(l) => |l| <= NUMBER_LIMIT
    case Quoted(raw) => Paired(raw)
    case List(items, _) => depth < NESTING_LIMIT && WithinCells(items, false, depth + 1)
    case Record(members, _) => depth < NESTING_LIMIT && WithinCells(members, true, depth + 1)
  }

  ghost predicate WithinCells(c: Cells, keyed: bool, depth: nat)
    decreases c, 1
  {
    c.Cell? ==> Within(c.value, depth) && WithinCells(c.next, keyed, depth) && (keyed ==> Paired(c.key))
  }

  lemma StringLimit(raw: seq<byte>)
    requires IsString(raw)
    ensures NulFree(raw) && Close(raw + [QUOTE]) == Some(|raw|)
    ensures Literally(raw).Some? <==> Paired(raw)
  {
    hide Literally, Close, SpelledAll, NulFree, Meant;
    var cs :| AllRegular(cs) && SpelledAll(cs) == raw;
    SpelledCloses(cs);
    LiteralMeant(cs);
    if Paired(raw) {
      var ds :| AllRegular(ds) && SpelledAll(ds) == raw && Meant(ds).Some?;
      LiteralMeant(ds);
    }
  }

  lemma NumberLimit(l: seq<byte>)
    requires IsNumber(l)
    ensures l != [] && (l[0] == MINUS || Digit(l[0])) && forall i | 0 <= i < |l| :: NumberByte(l[i])
    ensures Numeric(l) <==> |l| <= NUMBER_LIMIT
  {
    var n :| RegularNumber(n) && SpelledNumber(n) == l;
    StrtodAll(n);
    FigureProper(n);
    NumberBytes(AsWritten(n));
    hide Strtod, SpelledNumber;
  }

  /** Within the standard, well formed for cJSON means within its limits. */
  lemma {:induction false} StandardFine(t: Tree, depth: nat)
    requires Standard(t)
    ensures Fine(t, depth) <==> Within(t, depth)
    decreases t, 0
  {
    hide Literally, Paired, IsString, IsNumber, Numeric;
    match t
    case Word(_) =>
    case Numeral(l) => NumberLimit(l);
    case Quoted(raw) => StringLimit(raw);
    case List(items, w) => StandardCellsFine(items, false, depth + 1);
    case Record(members, w) => StandardCellsFine(members, true, depth + 1);
  }

  lemma {:induction false} StandardCellsFine(c: Cells, keyed: bool, depth: nat)
    requires StandardCells(c, keyed)
    ensures FineCells(c, keyed, depth) <==> WithinCells(c, keyed, depth)
    decreases c, 1
  {
    hide Literally, Paired, IsString;
    if c.Cell? {
      StandardFine(c.value, depth);
      StandardCellsFine(c.next, keyed, depth);
      if keyed {
        StringLimit(c.key);
      }
    }
  }

  // ---------- nothing beyond the limits is accepted

  /** The parser has failed, or stands in the middle of a number. */
  ghost predicate Stuck(r: Option<Result>) { r.Some? ==> r.value.rest != [] && NumberByte(r.value.rest[0]) }

  lemma LongNumber(l: seq<byte>, rest: seq<byte>, depth: nat)
    requires IsNumber(l) && |l| > NUMBER_LIMIT && Terminated(rest)
    ensures Terminated(l + rest) && Stuck(ParseValue(l + rest, depth))
  {
    NumberLimit(l);
    hide IsNumber, ParseItems, ParseMembers, JsonString.ParseString, SkipWs, Strtod, Run;
    NotKeyword(l + rest);
    var n := Strtod((l + rest)[..Run(l + rest, 63)]);
    assert (l + rest)[n] == l[n];
  }

  lemma BadString(raw: seq<byte>, rest: seq<byte>)
    requires IsString(raw) && Literally(raw).None?
    ensures ParseString([QUOTE] + (raw + ([QUOTE] + rest))) == None
  {
    hide Close, Decode, Paired, IsString, NulFree;
    StringLimit(raw);
    var t, s := raw + [QUOTE], [QUOTE] + (raw + ([QUOTE] + rest));
    assert s[1..] == t + rest;
    CloseBefore(t, rest, |raw|);
    DecodeBefore(t, rest, |raw|);
  }

  lemma {:induction false} StandardEnds(t: Tree, rest: seq<byte>)
    requires Standard(t) && Terminated(rest)
    ensures var s := Emit(t, rest);
      Terminated(s) && s[0] > 32 && s[0] != CLOSE_ARRAY && s[0] != CLOSE_OBJECT && s[0] != 0xef
    decreases t, 0
  {
    hide IsNumber, IsString, Whites, Terminated, EmitCells;
    match t
    case Word(j) => Ends(if j.Null? then NULL_TEXT else if j.False? then FALSE_TEXT else TRUE_TEXT, rest);
    case Numeral(l) =>
      NumberLimit(l);
      Ends(l, rest);
    case Quoted(raw) => QuotedEnds(raw, rest);
    case List(items, w) =>
      ClosedEnds(w, CLOSE_ARRAY, rest);
      StandardCellsEnd(items, false, w + ([CLOSE_ARRAY] + rest));
      Ends([OPEN_ARRAY], EmitCells(items, false, w + ([CLOSE_ARRAY] + rest)));
    case Record(members, w) =>
      ClosedEnds(w, CLOSE_OBJECT, rest);
      StandardCellsEnd(members, true, w + ([CLOSE_OBJECT] + rest));
      Ends([OPEN_OBJECT], EmitCells(members, true, w + ([CLOSE_OBJECT] + rest)));
  }

  lemma Ends(x: seq<byte>, rest: seq<byte>)
    requires x != [] && Terminated(rest)
    ensures Terminated(x + rest) && (x + rest)[0] == x[0]
  {
  }

  lemma QuotedEnds(raw: seq<byte>, rest: seq<byte>)
    requires Terminated(rest)
    ensures var s := [QUOTE] + (raw + ([QUOTE] + rest)); Terminated(s) && s[0] == QUOTE
  {
  }

  lemma ClosedEnds(w: seq<byte>, b: byte, rest: seq<byte>)
    requires Terminated(rest)
    ensures Terminated(w + ([b] + rest))
  {
  }

  lemma {:induction false} StandardCellsEnd(c: Cells, keyed: bool, rest: seq<byte>)
    requires StandardCells(c, keyed) && Terminated(rest)
    ensures Terminated(EmitCells(c, keyed, rest)) && Terminated(More(c, keyed, rest))
    decreases c, 1
  {
    hide IsString, Whites;
    if c.Cell? {
      var q := More(c.next, keyed, rest);
      StandardCellsEnd(c.next, keyed, rest);
      StandardEnds(c.value, c.after + q);
      hide Emit, Standard, StandardCells;
      CellTerminated(c, Emit(c.value, c.after + q));
    }
  }

  lemma CellTerminated(c: Cells, value: seq<byte>)
    requires c.Cell? && Terminated(value)
    ensures Terminated(c.before + value)
    ensures Terminated(c.before + ([QUOTE] + (c.key + ([QUOTE] + (c.mid + ([COLON] + (c.colon + value)))))))
  {
  }

  lemma StandardVisible(c: Cells, keyed: bool, rest: seq<byte>)
    requires c.Cell? && StandardCells(c, keyed) && Terminated(rest)
    ensures Terminated(EmitCells(c, keyed, rest))
    ensures var u := SkipWs(EmitCells(c, keyed, rest));
      u[0] > 32 && u[0] != CLOSE_ARRAY && u[0] != CLOSE_OBJECT && SkipWs(u) == u
  {
    hide Emit, More, SkipWs, IsString, Standard, Whites;
    var value := Emit(c.value, c.after + More(c.next, keyed, rest));
    var u := if keyed then [QUOTE] + (c.key + ([QUOTE] + (c.mid + ([COLON] + (c.colon + value))))) else value;
    assert EmitCells(c, keyed, rest) == c.before + u;
    StandardCellsEnd(c.next, keyed, rest);
    StandardEnds(c.value, c.after + More(c.next, keyed, rest));
    hide StandardCells, EmitCells;
    WhitesAreBlank(c.before);
    KeyTerminated(c, value);
    Visible(c.before, u);
  }

  lemma WhitesAreBlank(w: seq<byte>)
    requires Whites(w)
    ensures Blank(w)
  {
  }

  lemma KeyTerminated(c: Cells, value: seq<byte>)
    requires c.Cell? && Terminated(value)
    ensures Terminated([QUOTE] + (c.key + ([QUOTE] + (c.mid + ([COLON] + (c.colon + value))))))
  {
  }

  lemma {:induction false} TreeRejected(t: Tree, rest: seq<byte>, depth: nat)
    requires Standard(t) && !Fine(t, depth) && Behind(t, rest)
    ensures Terminated(Emit(t, rest)) && Stuck(ParseValue(Emit(t, rest), depth))
    decreases t, 1
  {
    hide ParseValue, IsNumber, IsString, Literally, Numeric;
    StandardEnds(t, rest);
    match t
    case Numeral(l) =>
      NumberLimit(l);
      LongNumber(l, rest, depth);
    case Quoted(raw) =>
      StringLimit(raw);
      QuotedRejected(raw, rest, depth);
    case List(items, w) => ListRejected(items, w, rest, depth);
    case Record(members, w) => RecordRejected(members, w, rest, depth);
    case _ =>
  }

  lemma QuotedRejected(raw: seq<byte>, rest: seq<byte>, depth: nat)
    requires IsString(raw) && Literally(raw).None? && Terminated(rest)
    ensures var s := Emit(Quoted(raw), rest); Terminated(s) && Stuck(ParseValue(s, depth))
  {
    hide SkipWs, ParseItems, ParseMembers, ParseNumber, JsonString.ParseString, Literally, IsString;
    BadString(raw, rest);
    NotKeyword(Emit(Quoted(raw), rest));
  }

  lemma TooDeep(b: byte, body: seq<byte>, depth: nat)
    requires (b == OPEN_ARRAY || b == OPEN_OBJECT) && Terminated(body) && depth >= NESTING_LIMIT
    ensures Terminated([b] + body) && ParseValue([b] + body, depth).None?
  {
    NotKeyword([b] + body);
  }

  /** What can be wrong with an array or object of the standard. */
  lemma ContentUnfit(items: Cells, w: seq<byte>, keyed: bool, depth: nat)
    requires Whites(w) && (items.Cell? ==> w == []) && StandardCells(items, keyed)
    requires !Fine(if keyed then Record(items, w) else List(items, w), depth)
    ensures depth >= NESTING_LIMIT || (items.Cell? && w == [] && !FineCells(items, keyed, depth + 1))
  {
    assert Blanks(w);
  }

  lemma {:induction false} ListRejected(items: Cells, w: seq<byte>, rest: seq<byte>, depth: nat)
    requires Standard(List(items, w)) && !Fine(List(items, w), depth) && Terminated(rest)
    ensures var s := Emit(List(items, w), rest); Terminated(s) && ParseValue(s, depth).None?
    decreases items, 3
  {
    hide ParseValue, ParseItems, SkipWs, StandardCells, EmitCells, Whites, Fine, FineCells;
    var close := [CLOSE_ARRAY] + rest;
    var body := EmitCells(items, false, w + close);
    ContentUnfit(items, w, false, depth);
    StandardCellsEnd(items, false, w + close);
    if depth >= NESTING_LIMIT {
      TooDeep(OPEN_ARRAY, body, depth);
    } else {
      assert w + close == close;
      ArrayStep(body, depth);
      StandardVisible(items, false, close);
      ItemsRejected(items, close, depth + 1);
    }
  }

  lemma {:induction false} ItemsRejected(c: Cells, close: seq<byte>, depth: nat)
    requires c.Cell? && StandardCells(c, false) && !FineCells(c, false, depth)
    requires Terminated(close) && |close| > 1 && close[0] == CLOSE_ARRAY
    ensures var s := EmitCells(c, false, close);
      Terminated(s) && ParseItems(SkipWs(s), depth) == ParseItems(s, depth) == None
    decreases c, 2
  {
    var q := More(c.next, false, close);
    var value := Emit(c.value, c.after + q);
    var s := c.before + value;
    assert EmitCells(c, false, close) == s;
    PartUnfit(c, false, depth);
    hide Emit, SkipWs, ParseValue, ParseItems, EmitCells, More, Value, Fine, FineCells, Whites, Blanks;
    PartFollowed(c, false, close);
    StandardVisible(c, false, close);
    BlanksAreBlank(c.before);
    hide Standard, StandardCells;
    Visible(c.before, value);
    SameItems(s, depth);
    if Fine(c.value, depth) {
      TreeParses(c.value, c.after + q, depth);
      ItemsUnfold(s, Value(c.value), c.after, q, depth);
      ItemsRejected(c.next, close, depth);
    } else {
      TreeRejected(c.value, c.after + q, depth);
      StuckItems(s, depth);
    }
  }

  lemma StuckStays(r: Option<Result>)
    requires Stuck(r) && (r.Some? ==> Terminated(r.value.rest))
    ensures r.Some? ==>
      var b := SkipWs(r.value.rest)[0];
      b != COMMA && b != CLOSE_ARRAY && b != CLOSE_OBJECT && b != 0
  {
  }

  lemma StuckItems(s: seq<byte>, depth: nat)
    requires Terminated(s) && Stuck(ParseValue(SkipWs(s), depth))
    ensures ParseItems(s, depth) == None
  {
    hide ParseValue, SkipWs, Stuck;
    StuckStays(ParseValue(SkipWs(s), depth));
  }

  lemma {:induction false} RecordRejected(members: Cells, w: seq<byte>, rest: seq<byte>, depth: nat)
    requires Standard(Record(members, w)) && !Fine(Record(members, w), depth) && Terminated(rest)
    ensures var s := Emit(Record(members, w), rest); Terminated(s) && ParseValue(s, depth).None?
    decreases members, 3
  {
    hide ParseValue, ParseMembers, SkipWs, StandardCells, EmitCells, Whites, Fine, FineCells;
    var close := [CLOSE_OBJECT] + rest;
    var body := EmitCells(members, true, w + close);
    ContentUnfit(members, w, true, depth);
    StandardCellsEnd(members, true, w + close);
    if depth >= NESTING_LIMIT {
      TooDeep(OPEN_OBJECT, body, depth);
    } else {
      assert w + close == close;
      ObjectStep(body, depth);
      StandardVisible(members, true, close);
      MembersRejected(members, close, depth + 1);
    }
  }

  lemma {:induction false} MembersRejected(c: Cells, close: seq<byte>, depth: nat)
    requires c.Cell? && StandardCells(c, true) && !FineCells(c, true, depth)
    requires Terminated(close) && |close| > 1 && close[0] == CLOSE_OBJECT
    ensures var s := EmitCells(c, true, close);
      Terminated(s) && ParseMembers(SkipWs(s), depth) == ParseMembers(s, depth) == None
    decreases c, 2
  {
    hide Emit, SkipWs, ParseValue, ParseMembers, More, Value, Fine, FineCells, Whites, Blanks, Literally, IsString;
    var q := More(c.next, true, close);
    var value := Emit(c.value, c.after + q);
    PartUnfit(c, true, depth);
    PartFollowed(c, true, close);
    StandardVisible(c, true, close);
    hide Standard;
    var s := EmitCells(c, true, close);
    assert s == c.before + ([QUOTE] + (c.key + ([QUOTE] + (c.mid + ([COLON] + (c.colon + value))))));
    hide EmitCells;
    SameItems(s, depth);
    if Literally(c.key).None? {
      BadKey(c, value, depth);
    } else if Fine(c.value, depth) {
      TreeParses(c.value, c.after + q, depth);
      MembersUnfold(c, value, Value(c.value), q, depth);
      MembersRejected(c.next, close, depth);
    } else {
      TreeRejected(c.value, c.after + q, depth);
      StuckMember(c, value, depth);
    }
  }

  /** What stands behind a part does not go on with a number. */
  lemma PartFollowed(c: Cells, keyed: bool, close: seq<byte>)
    requires c.Cell? && StandardCells(c, keyed) && Blanks(c.after)
    requires Terminated(close) && |close| > 1 && (close[0] == CLOSE_ARRAY || close[0] == CLOSE_OBJECT)
    ensures var q := More(c.next, keyed, close);
      && Terminated(q) && q[0] > 32 && Behind(c.value, c.after + q)
      && Terminated(Emit(c.value, c.after + q)) && Emit(c.value, c.after + q)[0] > 32
      && (c.next.Cell? ==> q[0] == COMMA && q[1..] == EmitCells(c.next, keyed, close) && |q| > 1)
  {
    hide Emit, More, EmitCells, Standard, Whites, Blanks, IsString;
    var q := More(c.next, keyed, close);
    StandardCellsEnd(c.next, keyed, close);
    MoreStart(c.next, keyed, close);
    BlankBehind(c.value, c.after, q);
    StandardEnds(c.value, c.after + q);
  }

  lemma BadKey(c: Cells, value: seq<byte>, depth: nat)
    requires c.Cell? && Blanks(c.before) && IsString(c.key) && Literally(c.key).None? && Terminated(value)
    ensures var s := c.before + ([QUOTE] + (c.key + ([QUOTE] + (c.mid + ([COLON] + (c.colon + value))))));
      Terminated(s) && ParseMembers(s, depth) == None
  {
    hide SkipWs, ParseMembers, JsonString.ParseString, Literally, IsString;
    var u := [QUOTE] + (c.key + ([QUOTE] + (c.mid + ([COLON] + (c.colon + value)))));
    BadString(c.key, c.mid + ([COLON] + (c.colon + value)));
    BlanksAreBlank(c.before);
    Visible(c.before, u);
    NoKey(c.before + u, depth);
  }

  /** What can be wrong with a part that is of the standard. */
  lemma PartUnfit(c: Cells, keyed: bool, depth: nat)
    requires c.Cell? && StandardCells(c, keyed) && !FineCells(c, keyed, depth)
    ensures Blanks(c.before) && Blanks(c.after) && (keyed ==> Blanks(c.mid) && Blanks(c.colon))
    ensures Fine(c.value, depth) && (keyed ==> Literally(c.key).Some?)
      ==> c.next.Cell? && !FineCells(c.next, keyed, depth)
  {
    hide IsString, Literally, Fine, Standard;
    if keyed {
      StringLimit(c.key);
    }
  }

  lemma NoKey(s: seq<byte>, depth: nat)
    requires Terminated(s) && ParseString(SkipWs(s)).None?
    ensures ParseMembers(s, depth) == None
  {
    hide ParseValue, JsonString.ParseString, SkipWs;
  }

  lemma StuckMember(c: Cells, value: seq<byte>, depth: nat)
    requires c.Cell? && Blanks(c.before) && Blanks(c.mid) && Blanks(c.colon) && Literally(c.key).Some?
    requires Terminated(value) && value[0] > 32 && Stuck(ParseValue(value, depth))
    ensures var s := c.before + ([QUOTE] + (c.key + ([QUOTE] + (c.mid + ([COLON] + (c.colon + value))))));
      Terminated(s) && ParseMembers(s, depth) == None
  {
    hide SkipWs, ParseValue, JsonString.ParseString, Literally, Stuck, Blanks;
    KeyParses(c, value, depth);
    StuckStays(ParseValue(value, depth));
  }

  // ---------- documents

  /** A document of the standard is accepted, with its value, exactly when it is within the limits. */
  lemma StandardAccepted(d: Document)
    requires Whites(d.before) && Standard(d.tree) && Whites(d.after)
    ensures Within(d.tree, 0) ==>
      Parse(Rendered(d), true).Some? && Parse(Rendered(d), true).value.value == Value(d.tree)
    ensures !Within(d.tree, 0) ==> Parse(Rendered(d), true).None?
  {
    assert Blanks(d.before) && Blanks(d.after) && Blank(d.before);
    StandardFine(d.tree, 0);
    hide Parse, Standard, Whites, Within, Fine, Emit;
    if Within(d.tree, 0) {
      DocumentParses(d);
    } else {
      BlankBehind(d.tree, d.after, [0]);
      StandardEnds(d.tree, d.after + [0]);
      TreeRejected(d.tree, d.after + [0], 0);
      EmitMore(d.tree, d.after, [0]);
      Continued(if d.marked then MARK else [], d.before, Emit(d.tree, d.after));
      StuckText(Rendered(d), d.marked, d.before, Emit(d.tree, d.after + [0]));
    }
  }

  lemma StuckText(text: seq<byte>, marked: bool, before: seq<byte>, s: seq<byte>)
    requires Blanks(before) && Terminated(s) && s[0] > 32 && s[0] != 0xef && Stuck(ParseValue(s, 0))
    requires text + [0] == (if marked then MARK else []) + (before + s)
    ensures Parse(text, true) == None
  {
    assert Blank(before);
    hide ParseValue, SkipWs, SkipBom, Blanks, Stuck;
    StuckStays(ParseValue(s, 0));
    MarkSkipped(marked, before, s);
    Visible(before, s);
  }

  // ---------- each limit at an input

  /** The document that is one tree and nothing else. */
  lemma Alone(t: Tree)
    requires Standard(t)
    ensures Parse(Emit(t, []), true).Some? <==> Within(t, 0)
  {
    hide Parse, Standard, Within, Emit;
    var d := Document(false, [], t, []);
    StandardAccepted(d);
    assert [] + ([] + Emit(t, [])) == Emit(t, []);
  }

  /** `n` arrays, one inside the other. */
  function Nest(n: nat): Tree
    requires n > 0
  {
    if n == 1 then List(Stop, []) else List(Cell([], [], [], [], Nest(n - 1), [], Stop), [])
  }

  function Repeat(b: byte, n: nat): seq<byte> { seq(n, _ => b) }

  lemma {:induction false} NestText(n: nat, rest: seq<byte>)
    requires n > 0
    ensures Emit(Nest(n), rest) == Repeat(OPEN_ARRAY, n) + (Repeat(CLOSE_ARRAY, n) + rest)
  {
    var inner := [CLOSE_ARRAY] + rest;
    if n == 1 {
      assert EmitCells(Stop, false, [] + inner) == [] + inner == inner;
      assert Repeat(OPEN_ARRAY, 1) == [OPEN_ARRAY] && Repeat(CLOSE_ARRAY, 1) == [CLOSE_ARRAY];
    } else {
      NestText(n - 1, inner);
      var c := Cell([], [], [], [], Nest(n - 1), [], Stop);
      assert [] + inner == inner && More(Stop, false, inner) == inner;
      assert EmitCells(c, false, inner) == [] + Emit(Nest(n - 1), [] + inner);
      assert Emit(Nest(n), rest) == [OPEN_ARRAY] + Emit(Nest(n - 1), inner);
      hide Emit, EmitCells;
      OneMore(n, rest);
    }
  }

  lemma OneMore(n: nat, rest: seq<byte>)
    requires n > 0
    ensures [OPEN_ARRAY] + (Repeat(OPEN_ARRAY, n - 1) + (Repeat(CLOSE_ARRAY, n - 1) + ([CLOSE_ARRAY] + rest)))
      == Repeat(OPEN_ARRAY, n) + (Repeat(CLOSE_ARRAY, n) + rest)
  {
    assert [OPEN_ARRAY] + Repeat(OPEN_ARRAY, n - 1) == Repeat(OPEN_ARRAY, n);
    assert Repeat(CLOSE_ARRAY, n - 1) + [CLOSE_ARRAY] == Repeat(CLOSE_ARRAY, n);
    hide Repeat;
    var x, y := Repeat(OPEN_ARRAY, n - 1), Repeat(CLOSE_ARRAY, n - 1);
    assert [OPEN_ARRAY] + (x + (y + ([CLOSE_ARRAY] + rest))) == ([OPEN_ARRAY] + x) + ((y + [CLOSE_ARRAY]) + rest);
  }

  lemma {:induction false} NestWithin(n: nat, depth: nat)
    requires n > 0
    ensures Standard(Nest(n)) && (Within(Nest(n), depth) <==> depth + n <= NESTING_LIMIT)
  {
    assert StandardCells(Stop, false) && WithinCells(Stop, false, depth + 1);
    if n > 1 {
      NestWithin(n - 1, depth + 1);
      var c := Cell([], [], [], [], Nest(n - 1), [], Stop);
      assert StandardCells(c, false) && (WithinCells(c, false, depth + 1) <==> Within(c.value, depth + 1));
    }
  }

  /** Opening brackets and as many closing ones are accepted up to a thousand of each. */
  lemma BracketsAccepted(n: nat)
    requires n > 0
    ensures Parse(Repeat(OPEN_ARRAY, n) + Repeat(CLOSE_ARRAY, n), true).Some? <==> n <= 1000
  {
    hide Parse, Standard, Within, Emit, Repeat;
    NestWithin(n, 0);
    NestText(n, []);
    Alone(Nest(n));
    assert Repeat(CLOSE_ARRAY, n) + [] == Repeat(CLOSE_ARRAY, n);
  }

  /** A number of ones is accepted up to 63 of them. */
  lemma OnesAccepted(n: nat)
    requires n > 0
    ensures Parse(Repeat(49, n), true).Some? <==> n <= 63
  {
    hide Parse;
    var f, l := Figure(false, Repeat(49, n), [], 101, [], []), Repeat(49, n);
    assert RegularNumber(f);
    assert Power(f) == [] && Fraction(f) == [] && SpelledNumber(f) == l;
    assert l + [] == l;
    Alone(Numeral(l));
  }

  /** A surrogate on its own is not accepted. */
  lemma LoneSurrogate()
    ensures Parse([QUOTE, BACKSLASH, LETTER_U, 100, 56, 48, 48, QUOTE], true).None?
  {
    hide Parse, Close, Decode, SpelledAll, Meant, Paired, Literally, AllRegular;
    var raw := [BACKSLASH, LETTER_U, 100, 56, 48, 48];
    LoneMeant(raw);
    StringLimit(raw);
    Alone(Quoted(raw));
    assert [QUOTE] + (raw + ([QUOTE] + [])) == [QUOTE, BACKSLASH, LETTER_U, 100, 56, 48, 48, QUOTE];
  }

  lemma LoneMeant(raw: seq<byte>)
    requires raw == [BACKSLASH, LETTER_U, 100, 56, 48, 48]
    ensures IsString(raw) && Literally(raw) == None
  {
    hide Literally;
    var d: seq<byte> := [100, 56, 48, 48];
    var cs := [Code(d)];
    assert cs[1..] == [] && Hex4(d) == 0xd800;
    assert AllRegular(cs) && Meant(cs) == None && SpelledAll(cs) == raw;
    LiteralMeant(cs);
  }
}

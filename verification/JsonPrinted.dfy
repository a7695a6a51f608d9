/** What a printed text is, without the printer: which form every character takes, which blanks stand where, and that
    the text is one of RFC 8259. */
module JsonPrinted {
  import opened Common
  import opened JsonString
  import opened Json
  import opened JsonRoundTrip
  import opened JsonMinify
  import opened JsonGrammar
  import opened JsonLiteral
  import opened JsonStandard
  import opened JsonLimits

  // ---------- strings

  /** A hexadecimal digit with small letters. */
  predicate SmallHex(b: byte) { 48 <= b <= 57 || 97 <= b <= 102 }

  /** Quote, backslash and the control characters 8, 9, 10, 12 and 13 have a letter of their own, every other control
      character is written with two digits behind two zeros, and nothing else is escaped. */
  predicate Canonical(c: Char) {
    match c
    case Unescaped(b) => b >= 32 && b != QUOTE && b != BACKSLASH
    case Short(letter) => letter in {34, 92, 98, 102, 110, 114, 116}
    case Code(d) =>
      && |d| == 4 && d[0] == d[1] == 48 && (d[2] == 48 || d[2] == 49) && SmallHex(d[3])
      && Hex4(d) !in {0, 8, 9, 10, 12, 13}
    case Dangling => false
  }

  ghost predicate AllCanonical(cs: seq<Char>) { forall i | 0 <= i < |cs| :: Canonical(cs[i]) }

  /** The form in which a byte is written. */
  function CharOf(b: byte): Char {
    match Letter(b)
    case Some(l) => Short(l)
    case None => if b < 32 then Code([48, 48, HexDigit(b / 16), HexDigit(b % 16)]) else Unescaped(b)
  }

  function ByteOf(c: Char): byte
    requires Canonical(c)
  {
    match c
    case Unescaped(b) => b
    case Short(letter) => SHORT[letter]
    case Code(d) => SmallCode(d); Hex4(d)
  }

  lemma SmallCode(d: seq<byte>)
    requires Canonical(Code(d))
    ensures Hex4(d) < 32
  {
  }

  lemma WrittenAs(b: byte)
    requires b != 0
    ensures Canonical(CharOf(b)) && ByteOf(CharOf(b)) == b && Spelled(CharOf(b)) == Escape(b)
  {
  }

  lemma ReadAs(c: Char)
    requires Canonical(c)
    ensures Regular(c) && ByteOf(c) != 0 && CharOf(ByteOf(c)) == c
  {
  }

  lemma CanonicalRegular(cs: seq<Char>)
    requires AllCanonical(cs)
    ensures AllRegular(cs) && AllLoose(cs)
  {
    forall i | 0 <= i < |cs|
      ensures Regular(cs[i])
    {
      ReadAs(cs[i]);
    }
  }

  function BytesOf(cs: seq<Char>): (s: seq<byte>)
    requires forall i | 0 <= i < |cs| :: Canonical(cs[i])
    ensures |s| == |cs|
  {
    seq(|cs|, i requires 0 <= i < |cs| => ByteOf(cs[i]))
  }

  /** Characters in canonical form stand for their bytes. */
  lemma {:induction false} CanonicalMeant(cs: seq<Char>)
    requires AllCanonical(cs)
    ensures AllLoose(cs) && Meant(cs) == Some(BytesOf(cs)) && SpelledAll(cs) == EscapeAll(BytesOf(cs))
  {
    CanonicalRegular(cs);
    if cs != [] {
      CanonicalMeant(cs[1..]);
      assert BytesOf(cs) == [ByteOf(cs[0])] + BytesOf(cs[1..]);
      OneMeant(cs);
      ReadAs(cs[0]);
      WrittenAs(ByteOf(cs[0]));
      assert BytesOf(cs)[1..] == BytesOf(cs[1..]);
    }
  }

  lemma OneMeant(cs: seq<Char>)
    requires AllCanonical(cs) && cs != [] && AllLoose(cs) && AllLoose(cs[1..])
    ensures Meant(cs) == Prepend([ByteOf(cs[0])], Meant(cs[1..]))
  {
    if cs[0].Code? {
      SmallCode(cs[0].digits);
      hide Hex4;
    }
  }

  function CharsOf(s: seq<byte>): seq<Char> { seq(|s|, i requires 0 <= i < |s| => CharOf(s[i])) }

  /** The text between the quotes of a printed string is the one way to write the string in canonical form; it is a
      string of the standard. */
  lemma StringWritten(s: seq<byte>, raw: seq<byte>)
    requires NulFree(s)
    ensures raw == EscapeAll(s) <==>
      exists cs :: AllCanonical(cs) && AllRegular(cs) && AllLoose(cs) && SpelledAll(cs) == raw && Meant(cs) == Some(s)
  {
    if raw == EscapeAll(s) {
      var cs := CharsOf(s);
      forall i | 0 <= i < |s|
        ensures Canonical(cs[i]) && ByteOf(cs[i]) == s[i]
      {
        WrittenAs(s[i]);
      }
      CanonicalRegular(cs);
      CanonicalMeant(cs);
      assert BytesOf(cs) == s;
    }
    if cs :| AllCanonical(cs) && AllRegular(cs) && AllLoose(cs) && SpelledAll(cs) == raw && Meant(cs) == Some(s) {
      CanonicalMeant(cs);
    }
  }

  // ---------- layout

  /** In formatted text, a new line with `d` tabs. */
  function Line(fmt: bool, d: nat): seq<byte> { if fmt then [NEWLINE] + Tabs(d) else [] }

  ghost predicate CanonicalText(raw: seq<byte>) { exists cs :: AllCanonical(cs) && SpelledAll(cs) == raw }

  /** A tree as the printer lays it out at depth `d`. Formatted: a blank behind each comma of an array; each member of
      an object on a line of its own, one tab further in than its braces, with a tab behind the colon; the closing brace
      on a line of its own. Unformatted: no blanks. Strings in canonical form. */
  ghost predicate Laid(t: Tree, fmt: bool, d: nat)
    decreases t, 0
  {
    match t
    case Word(j) => j.Null? || j.False? || j.True?
    case Numeral(_) => true
    case Quoted(raw) => CanonicalText(raw)
    case List(items, w) => w == [] && LaidItems(items, true, fmt, d + 1)
    case Record(members, w) => w == (if members.Stop? then Line(fmt, d) else []) && LaidMembers(members, fmt, d + 1)
  }

  ghost predicate LaidItems(c: Cells, first: bool, fmt: bool, d: nat)
    decreases c, 1
  {
    c.Cell? ==>
      && c.before == (if fmt && !first then [SPACE] else []) && c.after == []
      && Laid(c.value, fmt, d) && LaidItems(c.next, false, fmt, d)
  }

  ghost predicate LaidMembers(c: Cells, fmt: bool, d: nat)
    requires d > 0
    decreases c, 1
  {
    c.Cell? ==>
      && c.before == Line(fmt, d) && c.mid == [] && c.colon == (if fmt then [TAB] else [])
      && c.after == (if c.next.Stop? then Line(fmt, d - 1) else [])
      && CanonicalText(c.key) && Laid(c.value, fmt, d) && LaidMembers(c.next, fmt, d)
  }

  /** A literal in canonical form is what is printed for its text. */
  lemma LiteralText(raw: seq<byte>)
    requires CanonicalText(raw)
    ensures Literally(raw).Some? && NulFree(Literally(raw).value) && raw == EscapeAll(Literally(raw).value)
  {
    hide Literally;
    var cs :| AllCanonical(cs) && SpelledAll(cs) == raw;
    CanonicalRegular(cs);
    CanonicalMeant(cs);
    LiteralMeant(cs);
    forall i | 0 <= i < |cs|
      ensures BytesOf(cs)[i] != 0
    {
      ReadAs(cs[i]);
    }
  }

  /** A tree laid out as the printer does has the text that is printed for its value. */
  lemma {:induction false} LaidText(t: Tree, fmt: bool, d: nat, rest: seq<byte>)
    requires Laid(t, fmt, d)
    ensures Emit(t, rest) == Print(Value(t), fmt, d) + rest
    decreases t, 0
  {
    hide Print, EmitCells, Values, LaidItems, LaidMembers;
    match t
    case Word(j) => WordText(j, fmt, d);
    case Numeral(l) => NumberText(l, fmt, d);
    case Quoted(raw) => QuotedText(raw, fmt, d, rest);
    case List(items, w) => ListText(items, fmt, d, rest);
    case Record(members, w) => RecordText(members, w, fmt, d, rest);
  }

  lemma WordText(j: Json, fmt: bool, d: nat)
    requires j.Null? || j.False? || j.True?
    ensures Print(j, fmt, d) == if j.Null? then NULL_TEXT else if j.False? then FALSE_TEXT else TRUE_TEXT
  {
  }

  lemma NumberText(l: seq<byte>, fmt: bool, d: nat)
    ensures Print(Number(l), fmt, d) == l
  {
  }

  lemma QuotedText(raw: seq<byte>, fmt: bool, d: nat, rest: seq<byte>)
    requires CanonicalText(raw)
    ensures [QUOTE] + (raw + ([QUOTE] + rest)) == Print(Value(Quoted(raw)), fmt, d) + rest
  {
    LiteralText(raw);
    hide Literally, JsonString.EscapeAll, CanonicalText;
  }

  lemma {:induction false} ListText(items: Cells, fmt: bool, d: nat, rest: seq<byte>)
    requires LaidItems(items, true, fmt, d + 1)
    ensures Emit(List(items, []), rest) == Print(Array(Values(items, false)), fmt, d) + rest
    decreases items, 2
  {
    hide Print, PrintItems, EmitCells, Values, LaidItems;
    var close := [CLOSE_ARRAY] + rest;
    ItemsText(items, true, fmt, d + 1, close);
    ArrayText(Values(items, false), fmt, d, rest);
    NothingBefore(close);
    NothingBefore(PrintItems(Values(items, false), fmt, d + 1) + close);
  }

  lemma NothingBefore(x: seq<byte>)
    ensures [] + x == x
  {
  }

  lemma {:induction false} RecordText(members: Cells, w: seq<byte>, fmt: bool, d: nat, rest: seq<byte>)
    requires w == (if members.Stop? then Line(fmt, d) else []) && LaidMembers(members, fmt, d + 1)
    ensures Emit(Record(members, w), rest) == Print(Object(Values(members, true)), fmt, d) + rest
    decreases members, 2
  {
    var close := [CLOSE_OBJECT] + rest;
    ObjectText(Values(members, true), fmt, d, rest);
    if members.Cell? {
      hide Print, PrintMembers, EmitCells, Values, LaidMembers;
      MembersText(members, fmt, d + 1, close);
      NothingBefore(close);
    } else {
      assert PrintMembers(Values(members, true), fmt, d + 1) == [] && EmitCells(members, true, w + close) == w + close;
      hide Print, PrintMembers, EmitCells, Values, LaidMembers;
      EmptyText(fmt, d, close);
    }
  }

  lemma EmptyText(fmt: bool, d: nat, close: seq<byte>)
    ensures Line(fmt, d) + close == When(fmt, [NEWLINE]) + ([] + (When(fmt, Tabs(d)) + close))
  {
    if fmt {
      assert [NEWLINE] + Tabs(d) + close == [NEWLINE] + ([] + (Tabs(d) + close));
    }
  }

  lemma ValuesEnd(c: Cells, keyed: bool)
    ensures Values(c, keyed).End? <==> c.Stop?
  {
  }

  lemma {:induction false} ItemsText(c: Cells, first: bool, fmt: bool, d: nat, rest: seq<byte>)
    requires LaidItems(c, first, fmt, d)
    ensures EmitCells(c, false, rest)
      == (if fmt && !first && c.Cell? then [SPACE] else []) + (PrintItems(Values(c, false), fmt, d) + rest)
    decreases c, 1
  {
    if c.Cell? {
      var k, q := Values(c, false), More(c.next, false, rest);
      LaidText(c.value, fmt, d, q);
      ItemText(k, fmt, d, rest);
      ValuesEnd(c.next, false);
      if c.next.Cell? {
        ItemsText(c.next, false, fmt, d, rest);
      }
      hide Emit, Print, PrintItems, Values, Laid, LaidItems;
      NothingBefore(q);
    } else {
      assert PrintItems(Values(c, false), fmt, d) == [];
    }
  }

  lemma {:induction false} MembersText(c: Cells, fmt: bool, d: nat, rest: seq<byte>)
    requires d > 0 && c.Cell? && LaidMembers(c, fmt, d)
    ensures EmitCells(c, true, rest)
      == When(fmt, [NEWLINE]) + (PrintMembers(Values(c, true), fmt, d) + (When(fmt, Tabs(d - 1)) + rest))
    decreases c, 1
  {
    hide Print, PrintMembers, Emit, Laid, CanonicalText, Literally, JsonString.EscapeAll, JsonString.PrintString, Line;
    var k, q, u := Values(c, true), More(c.next, true, rest), When(fmt, Tabs(d - 1)) + rest;
    LaidText(c.value, fmt, d, c.after + q);
    KeyText(c.key);
    ValuesEnd(c.next, true);
    if c.next.Cell? {
      MembersText(c.next, fmt, d, rest);
      MoreMembers(fmt, PrintMembers(k.next, fmt, d) + u);
    } else {
      NoMembers(k.next, fmt, d);
      LastLine(fmt, d, rest);
    }
    hide EmitCells, Values, LaidMembers;
    assert c.after + q == When(k.next.Kid?, [COMMA]) + (When(fmt, [NEWLINE]) + (PrintMembers(k.next, fmt, d) + u));
    MemberText(k, fmt, d, u);
    MemberLine(c.key, fmt, d, Print(k.value, fmt, d) + (c.after + q));
  }

  lemma KeyText(raw: seq<byte>)
    requires CanonicalText(raw)
    ensures Literally(raw).Some? && PrintString(Literally(raw).value) == [QUOTE] + raw + [QUOTE]
  {
    hide Literally, JsonString.EscapeAll, CanonicalText;
    LiteralText(raw);
  }

  lemma NoMembers(k: Kids, fmt: bool, d: nat)
    requires k.End?
    ensures PrintMembers(k, fmt, d) == []
  {
  }

  lemma MoreMembers(fmt: bool, x: seq<byte>)
    ensures [] + ([COMMA] + (When(fmt, [NEWLINE]) + x)) == When(true, [COMMA]) + (When(fmt, [NEWLINE]) + x)
  {
  }

  lemma LastLine(fmt: bool, d: nat, rest: seq<byte>)
    requires d > 0
    ensures Line(fmt, d - 1) + rest
      == When(false, [COMMA]) + (When(fmt, [NEWLINE]) + ([] + (When(fmt, Tabs(d - 1)) + rest)))
  {
    EmptyText(fmt, d - 1, rest);
    NothingBefore(When(fmt, [NEWLINE]) + ([] + (When(fmt, Tabs(d - 1)) + rest)));
  }

  lemma MemberLine(raw: seq<byte>, fmt: bool, d: nat, x: seq<byte>)
    ensures Line(fmt, d) + ([QUOTE] + (raw + ([QUOTE] + ([] + ([COLON] + ((if fmt then [TAB] else []) + x))))))
      == When(fmt, [NEWLINE]) + (When(fmt, Tabs(d)) + (([QUOTE] + raw + [QUOTE]) + ([COLON] + (When(fmt, [TAB]) + x))))
  {
    var tab := When(fmt, [TAB]);
    var y := [COLON] + (tab + x);
    assert [QUOTE] + (raw + ([QUOTE] + ([] + y))) == ([QUOTE] + raw + [QUOTE]) + y;
    EmptyText(fmt, d, ([QUOTE] + raw + [QUOTE]) + y);
    NothingBefore(When(fmt, Tabs(d)) + (([QUOTE] + raw + [QUOTE]) + y));
  }

  // ---------- every tree can be laid out

  /** The syntax tree that is printed. */
  function Shown(j: Json, fmt: bool, d: nat): Tree
    decreases j, 0
  {
    match j
    case Null => Word(Null)
    case False => Word(False)
    case True => Word(True)
    case Number(l) => Numeral(l)
    case Text(s) => Quoted(EscapeAll(s))
    case Array(items) => List(ShownItems(items, true, fmt, d + 1), [])
    case Object(members) => Record(ShownMembers(members, fmt, d + 1), if members.End? then Line(fmt, d) else [])
  }

  function ShownItems(k: Kids, first: bool, fmt: bool, d: nat): Cells
    decreases k, 0
  {
    if k.End? then Stop
    else
      var before := if fmt && !first then [SPACE] else [];
      Cell(before, [], [], [], Shown(k.value, fmt, d), [], ShownItems(k.next, false, fmt, d))
  }

  function ShownMembers(k: Kids, fmt: bool, d: nat): Cells
    requires d > 0
    decreases k, 0
  {
    if k.End? then Stop
    else
      var after := if k.next.End? then Line(fmt, d - 1) else [];
      var colon := if fmt then [TAB] else [];
      Cell(Line(fmt, d), EscapeAll(k.key), [], colon, Shown(k.value, fmt, d), after, ShownMembers(k.next, fmt, d))
  }

  /** All numbers are numbers of the standard. */
  ghost predicate StandardNumbers(j: Json)
    decreases j, 0
  {
    match j
    case Number(l) => IsNumber(l)
    case Array(items) => StandardKids(items)
    case Object(members) => StandardKids(members)
    case _ => true
  }

  ghost predicate StandardKids(k: Kids)
    decreases k, 1
  {
    k.Kid? ==> StandardNumbers(k.value) && StandardKids(k.next)
  }

  lemma TextShown(s: seq<byte>)
    requires NulFree(s)
    ensures CanonicalText(EscapeAll(s)) && IsString(EscapeAll(s)) && Literally(EscapeAll(s)) == Some(s)
  {
    hide Literally, Meant, SpelledAll, AllCanonical, JsonString.EscapeAll;
    StringWritten(s, EscapeAll(s));
    var cs :|
      AllCanonical(cs) && AllRegular(cs) && AllLoose(cs) && SpelledAll(cs) == EscapeAll(s) && Meant(cs) == Some(s);
    LiteralMeant(cs);
  }

  /** The tree that is printed is laid out so, and means what is printed. */
  lemma {:induction false} ShownLaid(j: Json, fmt: bool, d: nat)
    requires Printable(j)
    ensures Laid(Shown(j, fmt, d), fmt, d) && Value(Shown(j, fmt, d)) == j
    decreases j, 0
  {
    hide CanonicalText, IsString, Literally, JsonString.EscapeAll, Line, Lexeme, NulFree;
    hide ShownItems, ShownMembers, LaidItems, LaidMembers, Values, PrintableKids;
    match j
    case Text(s) => TextShown(s);
    case Array(items) => ItemsLaid(items, true, fmt, d + 1);
    case Object(members) => MembersLaid(members, fmt, d + 1);
    case _ =>
  }

  lemma {:induction false} ItemsLaid(k: Kids, first: bool, fmt: bool, d: nat)
    requires PrintableKids(k, false)
    ensures var c := ShownItems(k, first, fmt, d);
      (c.Stop? <==> k.End?) && LaidItems(c, first, fmt, d) && Values(c, false) == k
    decreases k, 0
  {
    hide Shown, Laid, Value, Printable;
    if k.Kid? {
      ShownLaid(k.value, fmt, d);
      ItemsLaid(k.next, false, fmt, d);
    }
  }

  lemma {:induction false} MembersLaid(k: Kids, fmt: bool, d: nat)
    requires PrintableKids(k, true) && d > 0
    ensures var c := ShownMembers(k, fmt, d);
      (c.Stop? <==> k.End?) && LaidMembers(c, fmt, d) && Values(c, true) == k
    decreases k, 0
  {
    hide Shown, Laid, Value, Printable, CanonicalText, IsString, Literally, Line, JsonString.EscapeAll, NulFree;
    if k.Kid? {
      ShownLaid(k.value, fmt, d);
      MembersLaid(k.next, fmt, d);
      TextShown(k.key);
    }
  }

  // ---------- and is of the standard if its numbers are

  lemma LineWhite(fmt: bool, d: nat)
    ensures Whites(Line(fmt, d)) && Whites([]) && Whites([SPACE]) && Whites([TAB])
  {
  }

  lemma {:induction false} ShownStandard(j: Json, fmt: bool, d: nat)
    requires Printable(j) && StandardNumbers(j)
    ensures Standard(Shown(j, fmt, d))
    decreases j, 0
  {
    hide IsString, IsNumber, JsonString.EscapeAll, Line, Whites, Lexeme, NulFree;
    hide ShownItems, ShownMembers, StandardCells, StandardKids, PrintableKids;
    LineWhite(fmt, d);
    match j
    case Text(s) => TextShown(s);
    case Array(items) => ItemsStandard(items, true, fmt, d + 1);
    case Object(members) => MembersStandard(members, fmt, d + 1);
    case _ =>
  }

  lemma {:induction false} ItemsStandard(k: Kids, first: bool, fmt: bool, d: nat)
    requires PrintableKids(k, false) && StandardKids(k)
    ensures StandardCells(ShownItems(k, first, fmt, d), false)
    decreases k, 0
  {
    hide Shown, Standard, StandardNumbers, Printable, Whites;
    if k.Kid? {
      ShownStandard(k.value, fmt, d);
      ItemsStandard(k.next, false, fmt, d);
      LineWhite(fmt, d);
    }
  }

  lemma {:induction false} MembersStandard(k: Kids, fmt: bool, d: nat)
    requires PrintableKids(k, true) && StandardKids(k) && d > 0
    ensures (ShownMembers(k, fmt, d).Cell? <==> k.Kid?) && StandardCells(ShownMembers(k, fmt, d), true)
    decreases k, 0
  {
    hide Shown, Standard, StandardNumbers, Printable, Whites, IsString, Line, JsonString.EscapeAll, NulFree;
    if k.Kid? {
      ShownStandard(k.value, fmt, d);
      MembersStandard(k.next, fmt, d);
      LineWhite(fmt, d);
      LineWhite(fmt, d - 1);
      TextShown(k.key);
    }
  }

  /** The printed text, without the printer: a text is what is printed for `j` if and only if it is the text of a syntax
      tree with value `j` that is laid out so. */
  lemma PrintExactly(j: Json, fmt: bool, text: seq<byte>)
    requires Printable(j)
    ensures text == Print(j, fmt, 0) <==> exists t :: Laid(t, fmt, 0) && Value(t) == j && Emit(t, []) == text
  {
    hide Laid, Value, Emit, Print;
    assert Print(j, fmt, 0) + [] == Print(j, fmt, 0);
    if text == Print(j, fmt, 0) {
      ShownLaid(j, fmt, 0);
      LaidText(Shown(j, fmt, 0), fmt, 0, []);
    }
    if t :| Laid(t, fmt, 0) && Value(t) == j && Emit(t, []) == text {
      LaidText(t, fmt, 0, []);
    }
  }

  /** A tree whose numbers are of the standard is printed as a document of the standard. */
  lemma PrintStandard(j: Json, fmt: bool)
    requires Printable(j) && StandardNumbers(j)
    ensures exists t :: Standard(t) && Value(t) == j && Emit(t, []) == Print(j, fmt, 0)
  {
    hide Laid, Value, Emit, Print, Standard;
    assert Print(j, fmt, 0) + [] == Print(j, fmt, 0);
    ShownLaid(j, fmt, 0);
    ShownStandard(j, fmt, 0);
    LaidText(Shown(j, fmt, 0), fmt, 0, []);
  }

  /** The short forms, one by one. */
  lemma ShortForms()
    ensures PrintString([8]) == [QUOTE, BACKSLASH, 98, QUOTE] && PrintString([9]) == [QUOTE, BACKSLASH, 116, QUOTE]
    ensures PrintString([10]) == [QUOTE, BACKSLASH, 110, QUOTE] && PrintString([12]) == [QUOTE, BACKSLASH, 102, QUOTE]
    ensures PrintString([13]) == [QUOTE, BACKSLASH, 114, QUOTE] && PrintString([34]) == [QUOTE, BACKSLASH, 34, QUOTE]
    ensures PrintString([92]) == [QUOTE, BACKSLASH, 92, QUOTE] && PrintString([47]) == [QUOTE, 47, QUOTE]
    ensures PrintString([1]) == [QUOTE, BACKSLASH, 117, 48, 48, 48, 49, QUOTE]
    ensures PrintString([31]) == [QUOTE, BACKSLASH, 117, 48, 48, 49, 102, QUOTE]
  {
    OneByte();
    hide JsonString.PrintString;
  }

  lemma OneByte()
    ensures forall b: byte :: PrintString([b]) == [QUOTE] + Escape(b) + [QUOTE]
  {
    forall b: byte
      ensures PrintString([b]) == [QUOTE] + Escape(b) + [QUOTE]
    {
      hide JsonString.Escape;
      assert [b][1..] == [] && EscapeAll([b]) == Escape(b) + EscapeAll([b][1..]);
    }
  }

  // ---------- a text byte by byte

  const ITEMS: Kids := Kid([], Number([45, 49]), Kid([], True, Kid([], Null, End)))
  const ITEMS_TEXT: seq<byte> := [45, 49, 44, 116, 114, 117, 101, 44, 110, 117, 108, 108]

  lemma SampleItems()
    ensures PrintItems(ITEMS, false, 2) == ITEMS_TEXT
  {
    hide Print;
    NumberText([45, 49], false, 2);
    WordText(True, false, 2);
    WordText(Null, false, 2);
    var k2 := Kid([], Null, End);
    var k1 := Kid([], True, k2);
    assert PrintItems(k2, false, 2) == NULL_TEXT;
    assert PrintItems(k1, false, 2) == TRUE_TEXT + [COMMA] + NULL_TEXT;
    assert PrintItems(ITEMS, false, 2) == [45, 49] + [COMMA] + (TRUE_TEXT + [COMMA] + NULL_TEXT);
  }

  lemma SampleMembers(v: Json, t: seq<byte>)
    requires Print(v, false, 1) == t
    ensures PrintMembers(Kid([97], v, End), false, 1) == [34, 97, 34, 58] + t
  {
    hide Print, PrintMembers, JsonString.PrintString;
    LetterPrinted();
    NoMembers(End, false, 1);
    MemberText(Kid([97], v, End), false, 1, []);
    SampleLine(t);
    assert PrintMembers(Kid([97], v, End), false, 1) + [] == PrintMembers(Kid([97], v, End), false, 1);
  }

  lemma LetterPrinted()
    ensures PrintString([97]) == [34, 97, 34]
  {
    hide JsonString.PrintString;
    OneByte();
  }

  lemma SampleLine(t: seq<byte>)
    ensures [] + ([34, 97, 34] + ([58] + ([] + (t + ([] + ([] + ([] + []))))))) == [34, 97, 34, 58] + t
  {
    assert t + ([] + ([] + ([] + []))) == t;
    assert [] + ([34, 97, 34] + ([58] + ([] + t))) == [34, 97, 34, 58] + t;
  }

  /** An object with one member, an array of a number and two keywords, unformatted: {"a":[-1,true,null]}. */
  lemma SamplePrinted()
    ensures Print(Object(Kid([97], Array(ITEMS), End)), false, 0)
      == [123, 34, 97, 34, 58, 91] + ITEMS_TEXT + [93, 125]
  {
    SampleItems();
    hide PrintItems;
    var t := [OPEN_ARRAY] + ITEMS_TEXT + [CLOSE_ARRAY];
    assert Print(Array(ITEMS), false, 1) == t;
    SampleMembers(Array(ITEMS), t);
    hide PrintMembers;
    assert Print(Object(Kid([97], Array(ITEMS), End)), false, 0)
      == [OPEN_OBJECT] + [] + ([34, 97, 34, 58] + t) + [] + [CLOSE_OBJECT];
  }
}

/** Parsing what cJSON prints gives the tree back. */
module JsonRoundTrip {
  import opened Common
  import opened JsonString
  import opened Json

  /** Trees that a C program can hold and print: numbers as lexemes, strings and keys without zero bytes,
      array elements without keys. */
  ghost predicate Printable(j: Json) {
    match j
    case Number(l) => Lexeme(l)
    case Text(s) => NulFree(s)
    case Array(items) => PrintableKids(items, false)
    case Object(members) => PrintableKids(members, true)
    case _ => true
  }

  ghost predicate PrintableKids(k: Kids, keyed: bool) {
    k.Kid? ==> (if keyed then NulFree(k.key) else k.key == []) && Printable(k.value) && PrintableKids(k.next, keyed)
  }

  /** How deeply arrays and objects are nested. */
  function Nesting(j: Json): nat {
    match j
    case Array(items) => 1 + KidsNesting(items)
    case Object(members) => 1 + KidsNesting(members)
    case _ => 0
  }

  function KidsNesting(k: Kids): nat {
    match k
    case End => 0
    case Kid(_, v, next) => if Nesting(v) > KidsNesting(next) then Nesting(v) else KidsNesting(next)
  }

  /** What may follow a value: a terminated text that does not go on with a number byte. */
  ghost predicate Follows(s: seq<byte>) { Terminated(s) && !NumberByte(s[0]) }

  ghost predicate Blank(w: seq<byte>) { forall i :: 0 <= i < |w| ==> w[i] <= 32 }

  // ---------- white space

  lemma {:induction false} SkipBlank(w: seq<byte>, s: seq<byte>)
    requires Blank(w) && Terminated(s) && s[0] > 32
    ensures Terminated(w + s) && SkipWs(w + s) == s
  {
    if w == [] {
      assert w + s == s;
    } else {
      assert (w + s)[1..] == w[1..] + s;
      SkipBlank(w[1..], s);
    }
  }

  // ---------- numbers

  lemma {:induction false} RunLexeme(l: seq<byte>, rest: seq<byte>, max: nat)
    requires |l| < max && Follows(rest) && forall i :: 0 <= i < |l| ==> NumberByte(l[i])
    ensures Run(l + rest, max) == |l|
  {
    if l == [] {
      assert l + rest == rest;
    } else {
      assert (l + rest)[1..] == l[1..] + rest;
      RunLexeme(l[1..], rest, max - 1);
    }
  }

  lemma NumberRoundTrip(l: seq<byte>, rest: seq<byte>)
    requires Lexeme(l) && Follows(rest)
    ensures Terminated(l + rest) && ParseNumber(l + rest) == Some(Result(Number(l), rest))
  {
    RunLexeme(l, rest, 63);
    assert (l + rest)[..|l|] == l && (l + rest)[|l|..] == rest;
  }

  // ---------- values

  /** The first byte of any printed value is visible, and tells its kind. */
  lemma FirstByte(j: Json, fmt: bool, d: nat)
    requires Printable(j)
    ensures var t := Print(j, fmt, d);
      && t != [] && t[0] > 32 && t[0] != CLOSE_ARRAY && t[0] != CLOSE_OBJECT && t[0] != 0xef
      && (j.Text? ==> t[0] == QUOTE)
      && (j.Number? ==> t[0] == MINUS || Digit(t[0]))
      && (j.Array? ==> t[0] == OPEN_ARRAY)
      && (j.Object? ==> t[0] == OPEN_OBJECT)
  {
  }

  lemma {:induction false} ValueRoundTrip(j: Json, fmt: bool, d: nat, depth: nat, rest: seq<byte>)
    requires Printable(j) && depth + Nesting(j) <= NESTING_LIMIT && Follows(rest)
    ensures Terminated(Print(j, fmt, d) + rest)
    ensures ParseValue(Print(j, fmt, d) + rest, depth) == Some(Result(j, rest))
    decreases j, 1
  {
    hide Print, ParseValue;
    match j
    case Number(l) => NumberValue(l, fmt, d, depth, rest);
    case Text(t) => TextValue(t, fmt, d, depth, rest);
    case Array(items) => ArrayRoundTrip(items, fmt, d, depth, rest);
    case Object(members) => ObjectRoundTrip(members, fmt, d, depth, rest);
    case _ => KeywordValue(j, fmt, d, depth, rest);
  }

  lemma KeywordValue(j: Json, fmt: bool, d: nat, depth: nat, rest: seq<byte>)
    requires (j.Null? || j.False? || j.True?) && Follows(rest)
    ensures Terminated(Print(j, fmt, d) + rest)
    ensures ParseValue(Print(j, fmt, d) + rest, depth) == Some(Result(j, rest))
  {
    hide SkipWs, ParseItems, ParseMembers, ParseNumber, JsonString.ParseString;
    var s := Print(j, fmt, d) + rest;
    assert NULL_TEXT <= s ==> s[0] == 110;
    assert FALSE_TEXT <= s ==> s[0] == 102;
    match j
    case Null => assert NULL_TEXT <= s && s[4..] == rest;
    case False => assert FALSE_TEXT <= s && s[5..] == rest;
    case True => assert TRUE_TEXT <= s && s[4..] == rest;
  }

  lemma NumberValue(l: seq<byte>, fmt: bool, d: nat, depth: nat, rest: seq<byte>)
    requires Lexeme(l) && Follows(rest)
    ensures Terminated(Print(Number(l), fmt, d) + rest)
    ensures ParseValue(Print(Number(l), fmt, d) + rest, depth) == Some(Result(Number(l), rest))
  {
    hide SkipWs, ParseItems, ParseMembers, ParseNumber, JsonString.ParseString, Strtod;
    NumberRoundTrip(l, rest);
    NotKeyword(l + rest);
  }

  lemma TextValue(t: seq<byte>, fmt: bool, d: nat, depth: nat, rest: seq<byte>)
    requires NulFree(t) && Follows(rest)
    ensures Terminated(Print(Text(t), fmt, d) + rest)
    ensures ParseValue(Print(Text(t), fmt, d) + rest, depth) == Some(Result(Text(t), rest))
  {
    hide SkipWs, ParseItems, ParseMembers, ParseNumber, JsonString.ParseString;
    StringRoundTrip(t, rest);
    NotKeyword(PrintString(t) + rest);
  }

  // ---------- one unfolding of the parser at a time

  lemma NotKeyword(s: seq<byte>)
    requires s != [] && (s[0] == OPEN_ARRAY || s[0] == OPEN_OBJECT || s[0] == QUOTE || s[0] == MINUS || Digit(s[0]))
    ensures !(NULL_TEXT <= s) && !(FALSE_TEXT <= s) && !(TRUE_TEXT <= s)
  {
  }

  lemma ArrayStep(body: seq<byte>, depth: nat)
    requires Terminated(body) && depth < NESTING_LIMIT
    ensures Terminated([OPEN_ARRAY] + body)
    ensures var p, r := SkipWs(body), ParseValue([OPEN_ARRAY] + body, depth);
      if p[0] == CLOSE_ARRAY then r == Some(Result(Array(End), p[1..]))
      else
        var k := ParseItems(p, depth + 1);
        r == if k.None? then None else Some(Result(Array(k.value.kids), k.value.rest))
  {
    hide SkipWs, ParseItems, ParseMembers, ParseNumber, JsonString.ParseString;
    NotKeyword([OPEN_ARRAY] + body);
    assert ([OPEN_ARRAY] + body)[1..] == body;
  }

  lemma ObjectStep(body: seq<byte>, depth: nat)
    requires Terminated(body) && depth < NESTING_LIMIT
    ensures Terminated([OPEN_OBJECT] + body)
    ensures var p, r := SkipWs(body), ParseValue([OPEN_OBJECT] + body, depth);
      if p[0] == CLOSE_OBJECT then r == Some(Result(Object(End), p[1..]))
      else
        var k := ParseMembers(p, depth + 1);
        r == if k.None? then None else Some(Result(Object(k.value.kids), k.value.rest))
  {
    hide SkipWs, ParseItems, ParseMembers, ParseNumber, JsonString.ParseString;
    NotKeyword([OPEN_OBJECT] + body);
    assert ([OPEN_OBJECT] + body)[1..] == body;
  }

  /** Visible text is where SkipWs stops, whatever blanks come before it. */
  lemma Visible(w: seq<byte>, s: seq<byte>)
    requires Blank(w) && Terminated(s) && s[0] > 32
    ensures Terminated(w + s) && SkipWs(w + s) == s == SkipWs(s)
  {
    SkipBlank(w, s);
    SkipBlank([], s);
    assert [] + s == s;
  }

  lemma ItemsSkip(w: seq<byte>, s: seq<byte>, depth: nat)
    requires Blank(w) && Terminated(s) && s[0] > 32
    ensures Terminated(w + s) && ParseItems(w + s, depth) == ParseItems(s, depth)
  {
    Visible(w, s);
    hide SkipWs, ParseValue;
  }

  lemma MembersSkip(w: seq<byte>, s: seq<byte>, depth: nat)
    requires Blank(w) && Terminated(s) && s[0] > 32
    ensures Terminated(w + s) && ParseMembers(w + s, depth) == ParseMembers(s, depth)
  {
    Visible(w, s);
    hide SkipWs, ParseValue, JsonString.ParseString;
  }

  /** The last element of an array. */
  lemma LastItem(s: seq<byte>, v: Json, rest: seq<byte>, depth: nat)
    requires Terminated(s) && s[0] > 32 && Terminated(rest)
    requires ParseValue(s, depth) == Some(Result(v, [CLOSE_ARRAY] + rest))
    ensures ParseItems(s, depth) == Some(KidsResult(Kid([], v, End), rest))
  {
    hide SkipWs, ParseValue;
    var close := [CLOSE_ARRAY] + rest;
    Visible([], s);
    Visible([], close);
    assert close[1..] == rest;
  }

  /** An element with more to come. */
  lemma NextItem(s: seq<byte>, v: Json, more: seq<byte>, kids: Kids, rest: seq<byte>, depth: nat)
    requires Terminated(s) && s[0] > 32 && Terminated(more)
    requires ParseValue(s, depth) == Some(Result(v, [COMMA] + more))
    requires ParseItems(more, depth) == Some(KidsResult(kids, rest))
    ensures ParseItems(s, depth) == Some(KidsResult(Kid([], v, kids), rest))
  {
    hide SkipWs, ParseValue;
    var next := [COMMA] + more;
    Visible([], s);
    Visible([], next);
    assert next[1..] == more;
  }

  /** The last member of an object. */
  lemma LastMember(key: seq<byte>, s: seq<byte>, w: seq<byte>, v: Json, u: seq<byte>, rest: seq<byte>, depth: nat)
    requires NulFree(key) && Blank(w) && Blank(u) && Terminated(s) && s[0] > 32 && Terminated(rest)
    requires ParseValue(s, depth) == Some(Result(v, u + ([CLOSE_OBJECT] + rest)))
    ensures var t := PrintString(key) + ([COLON] + (w + s));
      Terminated(t) && ParseMembers(t, depth) == Some(KidsResult(Kid(key, v, End), rest))
  {
    hide SkipWs, ParseValue, JsonString.ParseString, JsonString.PrintString;
    var close := [CLOSE_OBJECT] + rest;
    MemberHead(key, s, w);
    Visible(u, close);
    assert close[1..] == rest;
  }

  /** A member with more to come. */
  lemma NextMember(key: seq<byte>, s: seq<byte>, w: seq<byte>, v: Json, more: seq<byte>, kids: Kids, rest: seq<byte>,
    depth: nat)
    requires NulFree(key) && Blank(w) && Terminated(s) && s[0] > 32 && Terminated(more)
    requires ParseValue(s, depth) == Some(Result(v, [COMMA] + more))
    requires ParseMembers(more, depth) == Some(KidsResult(kids, rest))
    ensures var t := PrintString(key) + ([COLON] + (w + s));
      Terminated(t) && ParseMembers(t, depth) == Some(KidsResult(Kid(key, v, kids), rest))
  {
    hide SkipWs, ParseValue, JsonString.ParseString, JsonString.PrintString;
    var next := [COMMA] + more;
    MemberHead(key, s, w);
    Visible([], next);
    assert next[1..] == more;
  }

  /** A key and its colon are read back, and so are the blanks before the value. */
  lemma MemberHead(key: seq<byte>, s: seq<byte>, w: seq<byte>)
    requires NulFree(key) && Blank(w) && Terminated(s) && s[0] > 32
    ensures var c := [COLON] + (w + s); var t := PrintString(key) + c;
      && Terminated(t) && t[0] == QUOTE && SkipWs(t) == t
      && ParseString(t) == Some(Parsed(key, c))
      && Terminated(c) && c[0] == COLON && SkipWs(c) == c
      && Terminated(w + s) && c[1..] == w + s && SkipWs(w + s) == s
  {
    var c := [COLON] + (w + s);
    StringRoundTrip(key, c);
    hide JsonString.ParseString;
    Visible(w, s);
    Visible([], c);
    Visible([], PrintString(key) + c);
    assert c[1..] == w + s;
  }

  // ---------- one unfolding of the printer at a time

  lemma ArrayText(items: Kids, fmt: bool, d: nat, rest: seq<byte>)
    ensures Print(Array(items), fmt, d) + rest
      == [OPEN_ARRAY] + (PrintItems(items, fmt, d + 1) + ([CLOSE_ARRAY] + rest))
  {
    hide PrintItems;
  }

  lemma ItemText(k: Kids, fmt: bool, d: nat, rest: seq<byte>)
    requires k.Kid?
    ensures var t := Print(k.value, fmt, d);
      PrintItems(k, fmt, d) + rest ==
      if k.next.End? then t + rest
      else t + ([COMMA] + (When(fmt, [SPACE]) + (PrintItems(k.next, fmt, d) + rest)))
  {
    var t, w := Print(k.value, fmt, d), When(fmt, [SPACE]);
    if k.next.End? {
      assert PrintItems(k.next, fmt, d) == [];
      assert PrintItems(k, fmt, d) == t;
    } else {
      assert PrintItems(k, fmt, d) == t + ([COMMA] + w) + PrintItems(k.next, fmt, d);
      hide Print, PrintItems;
      Regroup(t, [COMMA], w, PrintItems(k.next, fmt, d), rest);
    }
  }

  lemma Regroup(a: seq<byte>, b: seq<byte>, c: seq<byte>, d: seq<byte>, e: seq<byte>)
    ensures a + (b + c) + d + e == a + (b + (c + (d + e)))
  {
  }

  lemma ObjectText(members: Kids, fmt: bool, d: nat, rest: seq<byte>)
    ensures Print(Object(members), fmt, d) + rest ==
      [OPEN_OBJECT]
      + (When(fmt, [NEWLINE]) + (PrintMembers(members, fmt, d + 1) + (When(fmt, Tabs(d)) + ([CLOSE_OBJECT] + rest))))
  {
    hide PrintMembers;
  }

  lemma MemberText(k: Kids, fmt: bool, d: nat, rest: seq<byte>)
    requires k.Kid?
    ensures PrintMembers(k, fmt, d) + rest ==
      When(fmt, Tabs(d)) + (PrintString(k.key) + ([COLON] + (When(fmt, [TAB]) + (Print(k.value, fmt, d) +
        (When(k.next.Kid?, [COMMA]) + (When(fmt, [NEWLINE]) + (PrintMembers(k.next, fmt, d) + rest)))))))
  {
    hide Print, JsonString.PrintString, When;
    var a, b, e := When(fmt, Tabs(d)), PrintString(k.key), Print(k.value, fmt, d);
    var w, f, g, h := When(fmt, [TAB]), When(k.next.Kid?, [COMMA]), When(fmt, [NEWLINE]), PrintMembers(k.next, fmt, d);
    assert PrintMembers(k, fmt, d) == a + b + [COLON] + w + e + f + g + h;
    hide PrintMembers, PrintMember;
    Associate(a + b + [COLON] + w + e + f + g, h, rest);
    Associate(a + b + [COLON] + w + e + f, g, h + rest);
    Associate(a + b + [COLON] + w + e, f, g + (h + rest));
    Associate(a + b + [COLON] + w, e, f + (g + (h + rest)));
    Associate(a + b + [COLON], w, e + (f + (g + (h + rest))));
    Associate(a + b, [COLON], w + (e + (f + (g + (h + rest)))));
    Associate(a, b, [COLON] + (w + (e + (f + (g + (h + rest))))));
  }

  lemma Associate(a: seq<byte>, b: seq<byte>, c: seq<byte>)
    ensures a + b + c == a + (b + c)
  {
  }

  // ---------- arrays

  lemma {:induction false} ArrayRoundTrip(items: Kids, fmt: bool, d: nat, depth: nat, rest: seq<byte>)
    requires PrintableKids(items, false) && depth + 1 + KidsNesting(items) <= NESTING_LIMIT && Follows(rest)
    ensures var s := Print(Array(items), fmt, d) + rest;
      Terminated(s) && ParseValue(s, depth) == Some(Result(Array(items), rest))
    decreases items, 1
  {
    hide Print, PrintItems, ParseValue, ParseItems, SkipWs;
    var after := [CLOSE_ARRAY] + rest;
    var body := PrintItems(items, fmt, d + 1) + after;
    ArrayText(items, fmt, d, rest);
    if items.End? {
      NoItems(fmt, d + 1);
      assert body == after;
      ArrayStep(after, depth);
      Visible([], after);
      assert after[1..] == rest;
    } else {
      ItemsHead(items, fmt, d + 1, after);
      ItemsRoundTrip(items, fmt, d + 1, depth + 1, rest);
      ArrayStep(body, depth);
      Visible([], body);
    }
  }

  lemma NoItems(fmt: bool, d: nat)
    ensures PrintItems(End, fmt, d) == [] == PrintMembers(End, fmt, d)
  {
  }

  lemma ItemsHead(k: Kids, fmt: bool, d: nat, rest: seq<byte>)
    requires k.Kid? && PrintableKids(k, false) && Terminated(rest)
    ensures var t := PrintItems(k, fmt, d) + rest; Terminated(t) && t[0] > 32 && t[0] != CLOSE_ARRAY
  {
    hide Print, PrintItems;
    FirstByte(k.value, fmt, d);
    ItemText(k, fmt, d, rest);
  }

  lemma {:induction false} ItemsRoundTrip(k: Kids, fmt: bool, d: nat, depth: nat, rest: seq<byte>)
    requires k.Kid? && PrintableKids(k, false) && depth + KidsNesting(k) <= NESTING_LIMIT && Follows(rest)
    ensures var s := PrintItems(k, fmt, d) + ([CLOSE_ARRAY] + rest);
      Terminated(s) && ParseItems(s, depth) == Some(KidsResult(k, rest))
    decreases k, 0
  {
    hide Print, PrintItems, ParseValue, ParseItems, SkipWs;
    var v, after := Print(k.value, fmt, d), [CLOSE_ARRAY] + rest;
    FirstByte(k.value, fmt, d);
    ItemText(k, fmt, d, after);
    if k.next.End? {
      ValueRoundTrip(k.value, fmt, d, depth, after);
      LastItem(v + after, k.value, rest, depth);
    } else {
      var w, more := When(fmt, [SPACE]), PrintItems(k.next, fmt, d) + after;
      ItemsHead(k.next, fmt, d, after);
      ItemsRoundTrip(k.next, fmt, d, depth, rest);
      ItemsSkip(w, more, depth);
      ValueRoundTrip(k.value, fmt, d, depth, [COMMA] + (w + more));
      NextItem(v + ([COMMA] + (w + more)), k.value, w + more, k.next, rest, depth);
    }
  }

  // ---------- objects

  lemma {:induction false} ObjectRoundTrip(members: Kids, fmt: bool, d: nat, depth: nat, rest: seq<byte>)
    requires PrintableKids(members, true) && depth + 1 + KidsNesting(members) <= NESTING_LIMIT && Follows(rest)
    ensures var s := Print(Object(members), fmt, d) + rest;
      Terminated(s) && ParseValue(s, depth) == Some(Result(Object(members), rest))
    decreases members, 1
  {
    hide Print, PrintMembers, ParseValue, ParseMembers, SkipWs, MembersTail;
    var after := [CLOSE_OBJECT] + rest;
    var w, u := When(fmt, [NEWLINE]), When(fmt, Tabs(d));
    ObjectText(members, fmt, d, rest);
    if members.End? {
      NoItems(fmt, d + 1);
      assert [] + (u + after) == u + after;
      Associate(w, u, after);
      Visible(w + u, after);
      ObjectStep(w + u + after, depth);
      assert after[1..] == rest;
    } else {
      var tabs, head := When(fmt, Tabs(d + 1)), MembersTail(members, fmt, d + 1, u + after);
      MembersRoundTrip(members, fmt, d + 1, depth + 1, u, rest);
      MembersHead(members, fmt, d + 1, u + after);
      Associate(w, tabs, head);
      MembersSkip(tabs, head, depth + 1);
      ObjectBody(w + tabs, head, members, depth, rest);
    }
  }

  lemma ObjectBody(w: seq<byte>, head: seq<byte>, members: Kids, depth: nat, rest: seq<byte>)
    requires Blank(w) && Terminated(head) && head[0] == QUOTE && depth < NESTING_LIMIT
    requires ParseMembers(head, depth + 1) == Some(KidsResult(members, rest))
    ensures var s := [OPEN_OBJECT] + (w + head);
      Terminated(s) && ParseValue(s, depth) == Some(Result(Object(members), rest))
  {
    hide ParseValue, ParseMembers, SkipWs;
    Visible(w, head);
    ObjectStep(w + head, depth);
  }

  /** The text of the members from the first key on, behind its indentation. */
  function MembersTail(k: Kids, fmt: bool, d: nat, rest: seq<byte>): seq<byte>
    requires k.Kid?
  {
    PrintString(k.key) + ([COLON] + (When(fmt, [TAB]) + (Print(k.value, fmt, d) +
      (When(k.next.Kid?, [COMMA]) + (When(fmt, [NEWLINE]) + (PrintMembers(k.next, fmt, d) + rest))))))
  }

  lemma MembersHead(k: Kids, fmt: bool, d: nat, rest: seq<byte>)
    requires k.Kid? && Terminated(rest)
    ensures var t := MembersTail(k, fmt, d, rest);
      && PrintMembers(k, fmt, d) + rest == When(fmt, Tabs(d)) + t
      && Terminated(t) && t[0] == QUOTE
  {
    hide Print, PrintMembers;
    MemberText(k, fmt, d, rest);
  }

  lemma {:induction false} MembersRoundTrip(k: Kids, fmt: bool, d: nat, depth: nat, u: seq<byte>, rest: seq<byte>)
    requires k.Kid? && PrintableKids(k, true) && depth + KidsNesting(k) <= NESTING_LIMIT && Blank(u) && Follows(rest)
    ensures var s := PrintMembers(k, fmt, d) + (u + ([CLOSE_OBJECT] + rest));
      Terminated(s) && ParseMembers(s, depth) == Some(KidsResult(k, rest))
    decreases k, 0
  {
    hide Print, PrintMembers, ParseValue, ParseMembers, SkipWs, MembersTail;
    var after := u + ([CLOSE_OBJECT] + rest);
    if k.next.End? {
      var close := (When(fmt, [NEWLINE]) + u) + ([CLOSE_OBJECT] + rest);
      BlankStart(When(fmt, [NEWLINE]) + u, CLOSE_OBJECT, rest);
      ValueRoundTrip(k.value, fmt, d, depth, close);
      LastMemberText(k, fmt, d, depth, u, rest);
    } else {
      MembersRoundTrip(k.next, fmt, d, depth, u, rest);
      MembersHead(k.next, fmt, d, after);
      var more := MoreText(k, fmt, d, depth, after);
      ValueRoundTrip(k.value, fmt, d, depth, [COMMA] + more);
      NextMemberText(k, fmt, d, depth, after, more, rest);
    }
    MembersHead(k, fmt, d, after);
    MembersSkip(When(fmt, Tabs(d)), MembersTail(k, fmt, d, after), depth);
  }

  lemma LastMemberText(k: Kids, fmt: bool, d: nat, depth: nat, u: seq<byte>, rest: seq<byte>)
    requires k.Kid? && k.next.End? && PrintableKids(k, true) && Blank(u) && Terminated(rest)
    requires var s := Print(k.value, fmt, d) + ((When(fmt, [NEWLINE]) + u) + ([CLOSE_OBJECT] + rest));
      ParseValue(s, depth) == Some(Result(k.value, (When(fmt, [NEWLINE]) + u) + ([CLOSE_OBJECT] + rest)))
    ensures var s := MembersTail(k, fmt, d, u + ([CLOSE_OBJECT] + rest));
      Terminated(s) && ParseMembers(s, depth) == Some(KidsResult(k, rest))
  {
    hide Print, PrintMembers, ParseValue, ParseMembers, SkipWs, JsonString.PrintString;
    var line, v := When(fmt, [NEWLINE]), Print(k.value, fmt, d);
    var close := (line + u) + ([CLOSE_OBJECT] + rest);
    FirstByte(k.value, fmt, d);
    NoItems(fmt, d);
    LastText(line, u, [CLOSE_OBJECT] + rest);
    LastMember(k.key, v + close, When(fmt, [TAB]), k.value, line + u, rest, depth);
  }

  /** What stands behind the comma is read as the rest of the members. */
  lemma MoreText(k: Kids, fmt: bool, d: nat, depth: nat, after: seq<byte>) returns (more: seq<byte>)
    requires k.Kid? && k.next.Kid? && Terminated(after)
    ensures more == When(fmt, [NEWLINE]) + (PrintMembers(k.next, fmt, d) + after) && Terminated(more)
    ensures Terminated(PrintMembers(k.next, fmt, d) + after)
    ensures ParseMembers(more, depth) == ParseMembers(PrintMembers(k.next, fmt, d) + after, depth)
  {
    hide Print, PrintMembers, ParseMembers, SkipWs, MembersTail;
    var line, tabs, head := When(fmt, [NEWLINE]), When(fmt, Tabs(d)), MembersTail(k.next, fmt, d, after);
    more := line + (PrintMembers(k.next, fmt, d) + after);
    MembersHead(k.next, fmt, d, after);
    Associate(line, tabs, head);
    MembersSkip(line + tabs, head, depth);
    MembersSkip(tabs, head, depth);
  }

  lemma NextMemberText(k: Kids, fmt: bool, d: nat, depth: nat, after: seq<byte>, more: seq<byte>, rest: seq<byte>)
    requires k.Kid? && k.next.Kid? && PrintableKids(k, true) && Terminated(more)
    requires more == When(fmt, [NEWLINE]) + (PrintMembers(k.next, fmt, d) + after)
    requires ParseValue(Print(k.value, fmt, d) + ([COMMA] + more), depth) == Some(Result(k.value, [COMMA] + more))
    requires ParseMembers(more, depth) == Some(KidsResult(k.next, rest))
    ensures var s := MembersTail(k, fmt, d, after);
      Terminated(s) && ParseMembers(s, depth) == Some(KidsResult(k, rest))
  {
    hide Print, PrintMembers, ParseValue, ParseMembers, SkipWs, JsonString.PrintString;
    FirstByte(k.value, fmt, d);
    NextMember(k.key, Print(k.value, fmt, d) + ([COMMA] + more), When(fmt, [TAB]), k.value, more, k.next, rest, depth);
  }

  lemma LastText(line: seq<byte>, u: seq<byte>, end: seq<byte>)
    ensures [] + (line + ([] + (u + end))) == (line + u) + end
  {
  }

  lemma BlankStart(w: seq<byte>, b: byte, rest: seq<byte>)
    requires Blank(w) && !NumberByte(b) && Follows(rest)
    ensures Follows(w + ([b] + rest))
  {
  }

  // ---------- whole texts

  /** For every printable tree within the nesting limit, parsing what the printer emits, formatted or not, gives the
      same tree back, consumes all of the text and leaves the terminator alone. */
  lemma RoundTrip(j: Json, fmt: bool)
    requires Printable(j) && Nesting(j) <= NESTING_LIMIT
    ensures Parse(Print(j, fmt, 0), true) == Some(Result(j, [0]))
  {
    hide Print, ParseValue, SkipWs, Parse;
    ValueRoundTrip(j, fmt, 0, 0, [0]);
    FirstByte(j, fmt, 0);
    WholeText(Print(j, fmt, 0), j);
  }

  /** A text that begins with a value and ends behind it. */
  lemma WholeText(text: seq<byte>, j: Json)
    requires text != [] && text[0] > 32 && text[0] != 0xef
    requires ParseValue(text + [0], 0) == Some(Result(j, [0]))
    ensures Parse(text, true) == Some(Result(j, [0]))
  {
    hide ParseValue;
    Visible([], text + [0]);
    assert SkipWs([0]) == [0];
  }
}

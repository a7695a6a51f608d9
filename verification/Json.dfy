/** JSON trees, the text cJSON prints for them and what its parser makes of a text, as functions. */
module Json {
  import opened Common
  import opened JsonString

  /** A cJSON item; children form a linked list, with keys when the parent is an object. */
  datatype Json =
    | Null
    | False
    | True
    | Number(lexeme: seq<byte>)
    | Text(text: seq<byte>)
    | Array(items: Kids)
    | Object(members: Kids)

  datatype Kids = End | Kid(key: seq<byte>, value: Json, next: Kids)

  const NESTING_LIMIT: nat := 1000

  const NULL_TEXT: seq<byte> := [110, 117, 108, 108]
  const FALSE_TEXT: seq<byte> := [102, 97, 108, 115, 101]
  const TRUE_TEXT: seq<byte> := [116, 114, 117, 101]

  const COMMA: byte := 44
  const COLON: byte := 58
  const OPEN_ARRAY: byte := 91
  const CLOSE_ARRAY: byte := 93
  const OPEN_OBJECT: byte := 123
  const CLOSE_OBJECT: byte := 125
  const SPACE: byte := 32
  const TAB: byte := 9
  const NEWLINE: byte := 10
  const MINUS: byte := 45

  // ---------- numbers, as lexemes

  predicate Digit(b: byte) { 48 <= b <= 57 }

  /** The bytes that parse_number copies for strtod: digits, signs, point and exponent letters. */
  predicate NumberByte(b: byte) { Digit(b) || b == 43 || b == MINUS || b == 46 || b == 101 || b == 69 }

  /** The longest prefix of number bytes, at most `max` of them. */
  function Run(s: seq<byte>, max: nat): (n: nat)
    ensures n <= |s| && n <= max && forall i :: 0 <= i < n ==> NumberByte(s[i])
    decreases max
  {
    if max == 0 || s == [] || !NumberByte(s[0]) then 0 else 1 + Run(s[1..], max - 1)
  }

  function Digits(s: seq<byte>): (n: nat)
    ensures n <= |s|
  {
    if s == [] || !Digit(s[0]) then 0 else 1 + Digits(s[1..])
  }

  function Sign(s: seq<byte>): (n: nat)
    ensures n <= |s|
  {
    if s != [] && (s[0] == 43 || s[0] == MINUS) then 1 else 0
  }

  /** Digits with a point in or before or behind them; zero when there is no digit. */
  function Decimal(s: seq<byte>): (n: nat)
    ensures n <= |s|
  {
    var b := Digits(s);
    if b < |s| && s[b] == 46 then
      var f := Digits(s[b + 1..]);
      if b + f == 0 then 0 else b + 1 + f
    else b
  }

  /** An exponent with at least one digit, or nothing. */
  function Exponent(s: seq<byte>): (n: nat)
    ensures n <= |s|
  {
    if s == [] || (s[0] != 101 && s[0] != 69) then 0
    else
      var k := 1 + Sign(s[1..]);
      var d := Digits(s[k..]);
      if d == 0 then 0 else k + d
  }

  /** How many bytes strtod takes as a decimal number; zero when it finds none. */
  function Strtod(s: seq<byte>): (n: nat)
    ensures n <= |s|
  {
    var a := Sign(s);
    var d := Decimal(s[a..]);
    if d == 0 then 0 else a + d + Exponent(s[a + d..])
  }

  /** What print_number can have written: at most 25 bytes that strtod takes as one number. */
  predicate Lexeme(l: seq<byte>) {
    && 0 < |l| <= 25 && (l[0] == MINUS || Digit(l[0]))
    && (forall i :: 0 <= i < |l| ==> NumberByte(l[i]))
    && Strtod(l) == |l|
  }

  // ---------- printing

  function Tabs(n: nat): seq<byte> { seq(n, _ => TAB) }

  function When(c: bool, s: seq<byte>): seq<byte> { if c then s else [] }

  /** print_value at nesting depth `d`, formatted or not. */
  function Print(j: Json, fmt: bool, d: nat): seq<byte>
    decreases j, 0
  {
    match j
    case Null => NULL_TEXT
    case False => FALSE_TEXT
    case True => TRUE_TEXT
    case Number(l) => l
    case Text(s) => PrintString(s)
    case Array(items) => [OPEN_ARRAY] + PrintItems(items, fmt, d + 1) + [CLOSE_ARRAY]
    case Object(members) =>
      [OPEN_OBJECT] + When(fmt, [NEWLINE]) + PrintMembers(members, fmt, d + 1) + When(fmt, Tabs(d)) + [CLOSE_OBJECT]
  }

  function PrintItems(k: Kids, fmt: bool, d: nat): seq<byte>
    decreases k, 0
  {
    match k
    case End => []
    case Kid(_, v, next) =>
      Print(v, fmt, d) + When(next.Kid?, [COMMA] + When(fmt, [SPACE])) + PrintItems(next, fmt, d)
  }

  function PrintMembers(k: Kids, fmt: bool, d: nat): seq<byte>
    decreases k, 0
  {
    match k
    case End => []
    case Kid(key, v, next) => PrintMember(key, v, next.Kid?, fmt, d) + PrintMembers(next, fmt, d)
  }

  function PrintMember(key: seq<byte>, v: Json, more: bool, fmt: bool, d: nat): seq<byte>
    decreases v, 1
  {
    When(fmt, Tabs(d)) + PrintString(key) + [COLON] + When(fmt, [TAB]) + Print(v, fmt, d)
    + When(more, [COMMA]) + When(fmt, [NEWLINE])
  }

  // ---------- parsing

  datatype Result = Result(value: Json, rest: seq<byte>)
  datatype KidsResult = KidsResult(kids: Kids, rest: seq<byte>)

  /** A parse buffer that holds a whole C string ends with its terminating zero. */
  ghost predicate Terminated(s: seq<byte>) { s != [] && s[|s| - 1] == 0 }

  /** `r` is what is left of `s` after at least one byte, but not the terminator, has been consumed. */
  ghost predicate After(s: seq<byte>, r: seq<byte>) { Terminated(r) && |r| < |s| }

  /** buffer_skip_whitespace, which stays on the last byte when nothing else is left. */
  function SkipWs(s: seq<byte>): (r: seq<byte>)
    requires Terminated(s)
    ensures Terminated(r) && |r| <= |s|
  {
    if |s| > 1 && s[0] <= 32 then SkipWs(s[1..]) else s
  }

  /** parse_number */
  function ParseNumber(s: seq<byte>): (r: Option<Result>)
    requires Terminated(s)
    ensures r.Some? ==> After(s, r.value.rest)
  {
    var n := Strtod(s[..Run(s, 63)]);
    if n == 0 then None
    else
      assert NumberByte(s[n - 1]);
      Some(Result(Number(s[..n]), s[n..]))
  }

  lemma StringRest(s: seq<byte>)
    requires Terminated(s)
    ensures ParseString(s).Some? ==> After(s, ParseString(s).value.rest)
  {
  }

  /** parse_value at nesting depth `depth`. */
  function ParseValue(s: seq<byte>, depth: nat): (r: Option<Result>)
    requires Terminated(s)
    ensures r.Some? ==> After(s, r.value.rest)
    decreases |s|, 1
  {
    if NULL_TEXT <= s then Some(Result(Null, s[4..]))
    else if FALSE_TEXT <= s then Some(Result(False, s[5..]))
    else if TRUE_TEXT <= s then Some(Result(True, s[4..]))
    else if s[0] == QUOTE then
      StringRest(s);
      var p := ParseString(s);
      if p.None? then None else Some(Result(Text(p.value.text), p.value.rest))
    else if s[0] == MINUS || Digit(s[0]) then ParseNumber(s)
    else if s[0] == OPEN_ARRAY then
      if depth >= NESTING_LIMIT then None
      else
        var p := SkipWs(s[1..]);
        if p[0] == CLOSE_ARRAY then Some(Result(Array(End), p[1..]))
        else
          var k := ParseItems(p, depth + 1);
          if k.None? then None else Some(Result(Array(k.value.kids), k.value.rest))
    else if s[0] == OPEN_OBJECT then
      if depth >= NESTING_LIMIT then None
      else
        var p := SkipWs(s[1..]);
        if p[0] == CLOSE_OBJECT then Some(Result(Object(End), p[1..]))
        else
          var k := ParseMembers(p, depth + 1);
          if k.None? then None else Some(Result(Object(k.value.kids), k.value.rest))
    else None
  }

  /** The element loop of parse_array, from just behind '[' or ','. */
  function ParseItems(s: seq<byte>, depth: nat): (r: Option<KidsResult>)
    requires Terminated(s)
    ensures r.Some? ==> After(s, r.value.rest)
    decreases |s|, 2
  {
    var v := ParseValue(SkipWs(s), depth);
    if v.None? then None
    else
      var q := SkipWs(v.value.rest);
      if q[0] == COMMA then
        var more := ParseItems(q[1..], depth);
        if more.None? then None else Some(KidsResult(Kid([], v.value.value, more.value.kids), more.value.rest))
      else if q[0] == CLOSE_ARRAY then Some(KidsResult(Kid([], v.value.value, End), q[1..]))
      else None
  }

  /** The member loop of parse_object, from just behind '{' or ','. */
  function ParseMembers(s: seq<byte>, depth: nat): (r: Option<KidsResult>)
    requires Terminated(s)
    ensures r.Some? ==> After(s, r.value.rest)
    decreases |s|, 2
  {
    hide JsonString.ParseString, SkipWs;
    var p := SkipWs(s);
    StringRest(p);
    var key := ParseString(p);
    if key.None? then None
    else
      var c := SkipWs(key.value.rest);
      if c[0] != COLON then None
      else
        var v := ParseValue(SkipWs(c[1..]), depth);
        if v.None? then None
        else
          var q := SkipWs(v.value.rest);
          if q[0] == COMMA then
            var more := ParseMembers(q[1..], depth);
            if more.None? then None
            else Some(KidsResult(Kid(key.value.text, v.value.value, more.value.kids), more.value.rest))
          else if q[0] == CLOSE_OBJECT then Some(KidsResult(Kid(key.value.text, v.value.value, End), q[1..]))
          else None
  }

  // ---------- where a failing reader stops

  /** What is left of `s` where parse_value fails. */
  function LostValue(s: seq<byte>, depth: nat): seq<byte>
    requires Terminated(s)
    decreases |s|, 1
  {
    if s[0] == QUOTE then LostString(s)
    else if s[0] == OPEN_ARRAY && depth < NESTING_LIMIT then LostItems(SkipWs(s[1..]), depth + 1)
    else if s[0] == OPEN_OBJECT && depth < NESTING_LIMIT then LostMembers(SkipWs(s[1..]), depth + 1)
    else s
  }

  function LostItems(s: seq<byte>, depth: nat): seq<byte>
    requires Terminated(s)
    decreases |s|, 2
  {
    var v := ParseValue(SkipWs(s), depth);
    if v.None? then LostValue(SkipWs(s), depth)
    else
      var q := SkipWs(v.value.rest);
      if q[0] == COMMA then LostItems(q[1..], depth) else q
  }

  function LostMembers(s: seq<byte>, depth: nat): seq<byte>
    requires Terminated(s)
    decreases |s|, 3
  {
    hide JsonString.ParseString, SkipWs;
    var p := SkipWs(s);
    StringRest(p);
    var key := ParseString(p);
    if key.None? then LostString(p)
    else
      var c := SkipWs(key.value.rest);
      if c[0] != COLON then c else LostMember(SkipWs(c[1..]), depth)
  }

  /** The same from the value of a member on. */
  function LostMember(s: seq<byte>, depth: nat): seq<byte>
    requires Terminated(s)
    decreases |s|, 2
  {
    var v := ParseValue(s, depth);
    if v.None? then LostValue(s, depth)
    else
      var q := SkipWs(v.value.rest);
      if q[0] == COMMA then LostMembers(q[1..], depth) else q
  }

  /** skip_utf8_bom */
  function SkipBom(s: seq<byte>): (r: seq<byte>)
    requires Terminated(s)
    ensures Terminated(r)
  {
    if |s| > 4 && s[0] == 0xef && s[1] == 0xbb && s[2] == 0xbf then s[3..] else s
  }

  /** cJSON_ParseWithOpts: the value and what is left behind it; `whole` asks that nothing but white space be left. */
  function Parse(text: seq<byte>, whole: bool): (r: Option<Result>)
    ensures r.Some? ==> Terminated(r.value.rest)
  {
    var r := ParseValue(SkipWs(SkipBom(text + [0])), 0);
    if r.None? || (whole && SkipWs(r.value.rest)[0] != 0) then None else r
  }
}

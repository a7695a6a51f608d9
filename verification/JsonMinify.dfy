/** What cJSON_Minify makes of a C string: its blanks and comments go. */
module JsonMinify {
  import opened Common
  import opened JsonString
  import opened Json
  import opened JsonRoundTrip

  const STAR: byte := 42

  predicate White(b: byte) { b == SPACE || b == TAB || b == 13 || b == NEWLINE }

  function Prepend(x: seq<byte>, r: Option<seq<byte>>): Option<seq<byte>> {
    if r.None? then None else Some(x + r.value)
  }

  /** What is left of a C string; None when the scan would run past its terminator. */
  function Minified(s: seq<byte>): Option<seq<byte>>
    decreases |s|, 1
  {
    if s == [] then Some([])
    else if White(s[0]) then Minified(s[1..])
    else if s[0] == SLASH && |s| > 1 && s[1] == SLASH then InLine(s)
    else if s[0] == SLASH && |s| > 1 && s[1] == STAR then InComment(s)
    else if s[0] == QUOTE then Prepend([QUOTE], InLiteral(s[1..]))
    else Prepend([s[0]], Minified(s[1..]))
  }

  /** Inside a comment that ends with its line. */
  function InLine(s: seq<byte>): Option<seq<byte>>
    decreases |s|, 0
  {
    if s == [] then Some([])
    else if s[0] == NEWLINE then Minified(s[1..])
    else InLine(s[1..])
  }

  /** Inside a comment that ends with star and slash. */
  function InComment(s: seq<byte>): Option<seq<byte>>
    decreases |s|, 0
  {
    if s == [] then None
    else if s[0] == STAR && |s| > 1 && s[1] == SLASH then Minified(s[2..])
    else InComment(s[1..])
  }

  /** Inside a string literal. */
  function InLiteral(s: seq<byte>): Option<seq<byte>>
    decreases |s|, 0
  {
    if s == [] then None
    else if s[0] == QUOTE then Prepend([QUOTE], Minified(s[1..]))
    else if s[0] == BACKSLASH then if |s| < 2 then None else Prepend(s[..2], InLiteral(s[2..]))
    else Prepend([s[0]], InLiteral(s[1..]))
  }

  // ---------- on printed text

  predicate Plain(b: byte) { !White(b) && b != SLASH && b != QUOTE }

  lemma PrependTwice(x: seq<byte>, y: seq<byte>, r: Option<seq<byte>>)
    ensures Prepend(x, Prepend(y, r)) == Prepend(x + y, r)
  {
    if r.Some? {
      assert x + (y + r.value) == x + y + r.value;
    }
  }

  lemma PrependNone(r: Option<seq<byte>>)
    ensures Prepend([], r) == r
  {
    if r.Some? {
      assert [] + r.value == r.value;
    }
  }

  lemma {:induction false} PlainStays(x: seq<byte>, rest: seq<byte>)
    requires forall i :: 0 <= i < |x| ==> Plain(x[i])
    ensures Minified(x + rest) == Prepend(x, Minified(rest))
  {
    if x == [] {
      assert x + rest == rest;
      PrependNone(Minified(rest));
    } else {
      assert (x + rest)[1..] == x[1..] + rest;
      PlainStays(x[1..], rest);
      PrependTwice([x[0]], x[1..], Minified(rest));
      assert [x[0]] + x[1..] == x;
    }
  }

  /** Both scans agree on where a literal ends. */
  lemma {:induction false} LiteralStays(x: seq<byte>, rest: seq<byte>)
    requires x != [] && Close(x) == Some(|x| - 1)
    ensures InLiteral(x + rest) == Prepend(x, Minified(rest))
    decreases |x|
  {
    hide Minified;
    if x[0] == QUOTE {
      assert x == [QUOTE] && (x + rest)[1..] == rest;
    } else if x[0] == BACKSLASH {
      assert (x + rest)[2..] == x[2..] + rest && (x + rest)[..2] == x[..2];
      LiteralStays(x[2..], rest);
      PrependTwice(x[..2], x[2..], Minified(rest));
      assert x[..2] + x[2..] == x;
    } else {
      assert (x + rest)[1..] == x[1..] + rest;
      LiteralStays(x[1..], rest);
      PrependTwice([x[0]], x[1..], Minified(rest));
      assert [x[0]] + x[1..] == x;
    }
  }

  lemma {:induction false} WhiteGoes(w: seq<byte>, rest: seq<byte>)
    requires forall i :: 0 <= i < |w| ==> White(w[i])
    ensures Minified(w + rest) == Minified(rest)
  {
    if w == [] {
      assert w + rest == rest;
    } else {
      assert (w + rest)[1..] == w[1..] + rest;
      WhiteGoes(w[1..], rest);
    }
  }

  lemma EscapeStays(b: byte, rest: seq<byte>)
    ensures InLiteral(Escape(b) + rest) == Prepend(Escape(b), InLiteral(rest))
  {
    hide InLiteral, Minified;
    var x := Escape(b);
    EscapeShape(b);
    hide JsonString.Escape;
    if |x| == 1 {
      LiteralPlain(x, rest);
    } else {
      LiteralPlain(x[2..], rest);
      EscapeMark(x, rest);
      PrependTwice(x[..2], x[2..], InLiteral(rest));
      assert x[..2] + x[2..] == x;
    }
  }

  lemma EscapeMark(x: seq<byte>, rest: seq<byte>)
    requires |x| > 1 && x[0] == BACKSLASH
    ensures InLiteral(x + rest) == Prepend(x[..2], InLiteral(x[2..] + rest))
  {
    var t := x + rest;
    assert t[0] == BACKSLASH && t[2..] == x[2..] + rest && t[..2] == x[..2];
  }

  lemma {:induction false} LiteralPlain(x: seq<byte>, rest: seq<byte>)
    requires forall i :: 0 <= i < |x| ==> x[i] != QUOTE && x[i] != BACKSLASH
    ensures InLiteral(x + rest) == Prepend(x, InLiteral(rest))
  {
    if x == [] {
      assert x + rest == rest;
      PrependNone(InLiteral(rest));
    } else {
      assert (x + rest)[1..] == x[1..] + rest;
      LiteralPlain(x[1..], rest);
      PrependTwice([x[0]], x[1..], InLiteral(rest));
      assert [x[0]] + x[1..] == x;
    }
  }

  lemma {:induction false} EscapedStays(s: seq<byte>, rest: seq<byte>)
    ensures InLiteral(EscapeAll(s) + rest) == Prepend(EscapeAll(s), InLiteral(rest))
  {
    hide InLiteral, Minified;
    if s == [] {
      assert EscapeAll(s) + rest == rest;
      PrependNone(InLiteral(rest));
    } else {
      var x, y := Escape(s[0]), EscapeAll(s[1..]);
      Associate(x, y, rest);
      EscapeStays(s[0], y + rest);
      EscapedStays(s[1..], rest);
      PrependTwice(x, y, InLiteral(rest));
    }
  }

  lemma StringStays(s: seq<byte>, rest: seq<byte>)
    ensures Minified(PrintString(s) + rest) == Prepend(PrintString(s), Minified(rest))
  {
    var y, after := EscapeAll(s), [QUOTE] + rest;
    assert PrintString(s) + rest == [QUOTE] + (y + after);
    assert ([QUOTE] + (y + after))[1..] == y + after && after[1..] == rest;
    assert Minified([QUOTE] + (y + after)) == Prepend([QUOTE], InLiteral(y + after));
    assert InLiteral(after) == Prepend([QUOTE], Minified(rest));
    hide Minified, InLiteral;
    EscapedStays(s, after);
    PrependTwice(y, [QUOTE], Minified(rest));
    PrependTwice([QUOTE], y + [QUOTE], Minified(rest));
    Associate([QUOTE], y, [QUOTE]);
  }

  // ---------- formatted and unformatted print

  /** Every number is printed in bytes that Minify leaves alone. */
  ghost predicate PlainNumbers(j: Json) {
    match j
    case Number(l) => forall i :: 0 <= i < |l| ==> Plain(l[i])
    case Array(items) => PlainKids(items)
    case Object(members) => PlainKids(members)
    case _ => true
  }

  ghost predicate PlainKids(k: Kids) { k.Kid? ==> PlainNumbers(k.value) && PlainKids(k.next) }

  lemma {:induction false} ValueMinified(j: Json, d: nat, rest: seq<byte>)
    requires PlainNumbers(j)
    ensures Minified(Print(j, true, d) + rest) == Prepend(Print(j, false, d), Minified(rest))
    decreases j, 1
  {
    hide Minified;
    match j
    case Null => PlainStays(NULL_TEXT, rest);
    case False => PlainStays(FALSE_TEXT, rest);
    case True => PlainStays(TRUE_TEXT, rest);
    case Number(l) => PlainStays(l, rest);
    case Text(s) => StringStays(s, rest);
    case Array(items) => ArrayMinified(items, d, rest);
    case Object(members) => ObjectMinified(members, d, rest);
  }

  lemma {:induction false} ArrayMinified(items: Kids, d: nat, rest: seq<byte>)
    requires PlainKids(items)
    ensures Minified(Print(Array(items), true, d) + rest) == Prepend(Print(Array(items), false, d), Minified(rest))
    decreases items, 1
  {
    hide Minified, Print, PrintItems;
    var t, u := PrintItems(items, true, d + 1), PrintItems(items, false, d + 1);
    ArrayText(items, true, d, rest);
    ArrayText(items, false, d, []);
    assert Print(Array(items), false, d) + [] == Print(Array(items), false, d);
    PlainStays([OPEN_ARRAY], t + ([CLOSE_ARRAY] + rest));
    ItemsMinified(items, d + 1, [CLOSE_ARRAY] + rest);
    PlainStays([CLOSE_ARRAY], rest);
    PrependTwice(u, [CLOSE_ARRAY], Minified(rest));
    PrependTwice([OPEN_ARRAY], u + [CLOSE_ARRAY], Minified(rest));
    assert [CLOSE_ARRAY] + [] == [CLOSE_ARRAY];
  }

  lemma {:induction false} ItemsMinified(k: Kids, d: nat, rest: seq<byte>)
    requires PlainKids(k)
    ensures Minified(PrintItems(k, true, d) + rest) == Prepend(PrintItems(k, false, d), Minified(rest))
    decreases k, 0
  {
    hide Minified, Print, PrintItems;
    if k.End? {
      NoItems(true, d);
      NoItems(false, d);
      assert [] + rest == rest;
      PrependNone(Minified(rest));
    } else {
      ItemText(k, true, d, rest);
      ItemText(k, false, d, []);
      assert PrintItems(k, false, d) + [] == PrintItems(k, false, d);
      var v := Print(k.value, false, d);
      if k.next.End? {
        ValueMinified(k.value, d, rest);
        assert v + [] == v;
      } else {
        var more, u := PrintItems(k.next, true, d) + rest, PrintItems(k.next, false, d);
        ValueMinified(k.value, d, [COMMA] + ([SPACE] + more));
        PlainStays([COMMA], [SPACE] + more);
        WhiteGoes([SPACE], more);
        ItemsMinified(k.next, d, rest);
        PrependTwice([COMMA], u, Minified(rest));
        PrependTwice(v, [COMMA] + u, Minified(rest));
        assert [] + (u + []) == u;
      }
    }
  }

  lemma {:induction false} ObjectMinified(members: Kids, d: nat, rest: seq<byte>)
    requires PlainKids(members)
    ensures Minified(Print(Object(members), true, d) + rest)
      == Prepend(Print(Object(members), false, d), Minified(rest))
    decreases members, 1
  {
    hide Minified, Print, PrintMembers;
    var t, u := PrintMembers(members, true, d + 1), PrintMembers(members, false, d + 1);
    var after := Tabs(d) + ([CLOSE_OBJECT] + rest);
    ObjectText(members, true, d, rest);
    ObjectText(members, false, d, []);
    assert Print(Object(members), false, d) + [] == Print(Object(members), false, d);
    PlainStays([OPEN_OBJECT], [NEWLINE] + (t + after));
    WhiteGoes([NEWLINE], t + after);
    MembersMinified(members, d + 1, after);
    WhiteGoes(Tabs(d), [CLOSE_OBJECT] + rest);
    PlainStays([CLOSE_OBJECT], rest);
    PrependTwice(u, [CLOSE_OBJECT], Minified(rest));
    PrependTwice([OPEN_OBJECT], u + [CLOSE_OBJECT], Minified(rest));
    assert [] + (u + ([] + ([CLOSE_OBJECT] + []))) == u + [CLOSE_OBJECT];
  }

  lemma {:induction false} MembersMinified(k: Kids, d: nat, rest: seq<byte>)
    requires PlainKids(k)
    ensures Minified(PrintMembers(k, true, d) + rest) == Prepend(PrintMembers(k, false, d), Minified(rest))
    decreases k, 0
  {
    hide Minified, Print, PrintMembers;
    if k.End? {
      NoItems(true, d);
      NoItems(false, d);
      assert [] + rest == rest;
      PrependNone(Minified(rest));
    } else {
      var more := PrintMembers(k.next, true, d) + rest;
      var comma := When(k.next.Kid?, [COMMA]);
      MemberText(k, true, d, rest);
      ValueMinified(k.value, d, comma + ([NEWLINE] + more));
      PlainStays(comma, [NEWLINE] + more);
      WhiteGoes([NEWLINE], more);
      MembersMinified(k.next, d, rest);
      MemberMinified(k, d, comma + ([NEWLINE] + more), rest);
    }
  }

  lemma MemberMinified(k: Kids, d: nat, after: seq<byte>, rest: seq<byte>)
    requires k.Kid?
    requires Minified(Print(k.value, true, d) + after) == Prepend(Print(k.value, false, d), Minified(after))
    requires Minified(after)
      == Prepend(When(k.next.Kid?, [COMMA]), Prepend(PrintMembers(k.next, false, d), Minified(rest)))
    ensures Minified(Tabs(d) + (PrintString(k.key) + ([COLON] + ([TAB] + (Print(k.value, true, d) + after)))))
      == Prepend(PrintMembers(k, false, d), Minified(rest))
  {
    hide Minified, Print, PrintMembers, JsonString.PrintString;
    var t, v, u := Print(k.value, true, d) + after, Print(k.value, false, d), PrintMembers(k.next, false, d);
    var comma := When(k.next.Kid?, [COMMA]);
    WhiteGoes(Tabs(d), PrintString(k.key) + ([COLON] + ([TAB] + t)));
    StringStays(k.key, [COLON] + ([TAB] + t));
    PlainStays([COLON], [TAB] + t);
    WhiteGoes([TAB], t);
    PrependTwice(comma, u, Minified(rest));
    PrependTwice(v, comma + u, Minified(rest));
    PrependTwice([COLON], v + (comma + u), Minified(rest));
    PrependTwice(PrintString(k.key), [COLON] + (v + (comma + u)), Minified(rest));
    MemberText(k, false, d, []);
    assert PrintMembers(k, false, d) + [] == PrintMembers(k, false, d);
    assert [] + (u + []) == u;
    assert [] + (v + (comma + u)) == v + (comma + u);
    assert [] + (PrintString(k.key) + ([COLON] + (v + (comma + u))))
      == PrintString(k.key) + ([COLON] + (v + (comma + u)));
  }

  /** For every tree, minifying the formatted print gives the unformatted print byte for byte. */
  lemma MinifyFormatted(j: Json)
    requires PlainNumbers(j)
    ensures Minified(Print(j, true, 0)) == Some(Print(j, false, 0))
  {
    ValueMinified(j, 0, []);
    assert Print(j, true, 0) + [] == Print(j, true, 0);
    assert Print(j, false, 0) + [] == Print(j, false, 0);
  }
}

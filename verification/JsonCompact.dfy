/** What cJSON_Minify does to every text that cJSON_Parse accepts. */
module JsonCompact {
  import opened Common
  import opened JsonString
  import opened Json
  import opened JsonRoundTrip
  import opened JsonMinify
  import opened JsonGrammar
  import opened JsonAccepted

  // ---------- the blanks that the two functions disagree on

  /** The parser takes every byte up to 32 for a blank; minifying takes only four of them out. */
  function Kept(w: seq<byte>): seq<byte> {
    if w == [] then [] else (if White(w[0]) then [] else [w[0]]) + Kept(w[1..])
  }

  lemma {:induction false} KeptTwice(w: seq<byte>)
    ensures Kept(Kept(w)) == Kept(w)
    ensures Blanks(w) ==> Blanks(Kept(w))
  {
    if w != [] {
      KeptTwice(w[1..]);
      var k := Kept(w[1..]);
      if White(w[0]) {
        assert Kept(w) == k;
      } else {
        assert Kept(w) == [w[0]] + k && ([w[0]] + k)[1..] == k;
      }
    }
  }

  lemma {:induction false} BlanksMinified(w: seq<byte>, rest: seq<byte>)
    requires Blanks(w)
    ensures Minified(w + rest) == Prepend(Kept(w), Minified(rest))
  {
    if w == [] {
      assert w + rest == rest;
      PrependNone(Minified(rest));
    } else {
      assert (w + rest)[1..] == w[1..] + rest;
      BlanksMinified(w[1..], rest);
      PrependTwice([w[0]], Kept(w[1..]), Minified(rest));
      PrependNone(Prepend(Kept(w[1..]), Minified(rest)));
      PrependTwice([], Kept(w[1..]), Minified(rest));
    }
  }

  // ---------- literals

  lemma QuotedStays(raw: seq<byte>, rest: seq<byte>, m: seq<byte>)
    requires Literally(raw).Some? && Minified(rest) == Some(m)
    ensures Minified([QUOTE] + (raw + ([QUOTE] + rest))) == Some([QUOTE] + (raw + ([QUOTE] + m)))
  {
    var s := [QUOTE] + (raw + ([QUOTE] + rest));
    hide InLiteral, Close, Decode;
    LiteralStays(raw + [QUOTE], rest);
    assert s[1..] == raw + [QUOTE] + rest;
    assert raw + [QUOTE] + m == raw + ([QUOTE] + m);
  }

  lemma ByteStays(b: byte, rest: seq<byte>, m: seq<byte>)
    requires Plain(b) && Minified(rest) == Some(m)
    ensures Minified([b] + rest) == Some([b] + m)
  {
    PlainStays([b], rest);
  }

  // ---------- trees

  function Bare(t: Tree): Tree
    decreases t, 0
  {
    match t
    case List(items, w) => List(BareCells(items), Kept(w))
    case Record(members, w) => Record(BareCells(members), Kept(w))
    case _ => t
  }

  function BareCells(c: Cells): Cells
    decreases c, 1
  {
    if c.Stop? then Stop
    else Cell(Kept(c.before), c.key, Kept(c.mid), Kept(c.colon), Bare(c.value), Kept(c.after), BareCells(c.next))
  }

  /** Without its white space a tree is as well formed as before and means the same. */
  lemma {:induction false} BareFine(t: Tree, depth: nat)
    requires Fine(t, depth)
    ensures Fine(Bare(t), depth) && Value(Bare(t)) == Value(t)
    decreases t, 0
  {
    hide Kept, Literally;
    match t
    case List(items, w) =>
      KeptTwice(w);
      BareCellsFine(items, false, depth + 1);
      KeptNone();
    case Record(members, w) =>
      KeptTwice(w);
      BareCellsFine(members, true, depth + 1);
      KeptNone();
    case _ =>
  }

  lemma KeptNone()
    ensures Kept([]) == []
  {
  }

  lemma {:induction false} BareCellsFine(c: Cells, keyed: bool, depth: nat)
    requires FineCells(c, keyed, depth)
    ensures FineCells(BareCells(c), keyed, depth) && Values(BareCells(c), keyed) == Values(c, keyed)
    decreases c, 1
  {
    hide Kept, Literally;
    if c.Cell? {
      KeptTwice(c.before);
      KeptTwice(c.after);
      KeptTwice(c.mid);
      KeptTwice(c.colon);
      BareFine(c.value, depth);
      BareCellsFine(c.next, keyed, depth);
    }
  }

  lemma {:induction false} BareTwice(t: Tree)
    ensures Bare(Bare(t)) == Bare(t)
    decreases t, 0
  {
    hide Kept;
    match t
    case List(items, w) =>
      KeptTwice(w);
      BareCellsTwice(items);
    case Record(members, w) =>
      KeptTwice(w);
      BareCellsTwice(members);
    case _ =>
  }

  lemma {:induction false} BareCellsTwice(c: Cells)
    ensures BareCells(BareCells(c)) == BareCells(c)
    decreases c, 1
  {
    hide Kept;
    if c.Cell? {
      KeptTwice(c.before);
      KeptTwice(c.after);
      KeptTwice(c.mid);
      KeptTwice(c.colon);
      BareTwice(c.value);
      BareCellsTwice(c.next);
    }
  }

  // ---------- minifying a tree

  lemma {:induction false} TreeMinified(t: Tree, rest: seq<byte>, m: seq<byte>, depth: nat)
    requires Fine(t, depth) && Minified(rest) == Some(m)
    ensures Minified(Emit(t, rest)) == Some(Emit(Bare(t), m))
    decreases t, 0
  {
    hide Minified, Kept, Literally, Strtod;
    match t
    case Word(j) => PlainStays(if j.Null? then NULL_TEXT else if j.False? then FALSE_TEXT else TRUE_TEXT, rest);
    case Numeral(l) => PlainStays(l, rest);
    case Quoted(raw) => QuotedStays(raw, rest, m);
    case List(items, w) =>
      EndMinified(w, CLOSE_ARRAY, rest, m);
      CellsMinified(items, false, w + ([CLOSE_ARRAY] + rest), Kept(w) + ([CLOSE_ARRAY] + m), depth + 1);
      hide EmitCells;
      ByteStays(OPEN_ARRAY, EmitCells(items, false, w + ([CLOSE_ARRAY] + rest)),
        EmitCells(BareCells(items), false, Kept(w) + ([CLOSE_ARRAY] + m)));
    case Record(members, w) =>
      EndMinified(w, CLOSE_OBJECT, rest, m);
      CellsMinified(members, true, w + ([CLOSE_OBJECT] + rest), Kept(w) + ([CLOSE_OBJECT] + m), depth + 1);
      hide EmitCells;
      ByteStays(OPEN_OBJECT, EmitCells(members, true, w + ([CLOSE_OBJECT] + rest)),
        EmitCells(BareCells(members), true, Kept(w) + ([CLOSE_OBJECT] + m)));
  }

  lemma EndMinified(w: seq<byte>, b: byte, rest: seq<byte>, m: seq<byte>)
    requires Blanks(w) && Plain(b) && Minified(rest) == Some(m)
    ensures Minified(w + ([b] + rest)) == Some(Kept(w) + ([b] + m))
  {
    hide Minified, Kept;
    ByteStays(b, rest, m);
    BlanksMinified(w, [b] + rest);
  }

  lemma {:induction false} CellsMinified(c: Cells, keyed: bool, rest: seq<byte>, m: seq<byte>, depth: nat)
    requires FineCells(c, keyed, depth) && Minified(rest) == Some(m)
    ensures Minified(EmitCells(c, keyed, rest)) == Some(EmitCells(BareCells(c), keyed, m))
    ensures Minified(More(c, keyed, rest)) == Some(More(BareCells(c), keyed, m))
    decreases c, 1
  {
    hide Minified, Kept, Literally;
    if c.Cell? {
      var q, n := More(c.next, keyed, rest), More(BareCells(c.next), keyed, m);
      CellsMinified(c.next, keyed, rest, m, depth);
      BlanksMinified(c.after, q);
      TreeMinified(c.value, c.after + q, Kept(c.after) + n, depth);
      hide Emit;
      PartMinified(c, keyed, Emit(c.value, c.after + q), Emit(Bare(c.value), Kept(c.after) + n), depth);
      ByteStays(COMMA, EmitCells(c, keyed, rest), EmitCells(BareCells(c), keyed, m));
    }
  }

  /** A part up to its value, with or without its key. */
  lemma PartMinified(c: Cells, keyed: bool, value: seq<byte>, v: seq<byte>, depth: nat)
    requires c.Cell? && FineCells(c, keyed, depth) && Minified(value) == Some(v)
    ensures keyed ==>
      Minified(c.before + ([QUOTE] + (c.key + ([QUOTE] + (c.mid + ([COLON] + (c.colon + value)))))))
      == Some(Kept(c.before) + ([QUOTE] + (c.key + ([QUOTE] + (Kept(c.mid) + ([COLON] + (Kept(c.colon) + v)))))))
    ensures !keyed ==> Minified(c.before + value) == Some(Kept(c.before) + v)
  {
    hide Minified, Kept, Literally, Fine;
    if keyed {
      BlanksMinified(c.colon, value);
      EndMinified(c.mid, COLON, c.colon + value, Kept(c.colon) + v);
      QuotedStays(c.key, c.mid + ([COLON] + (c.colon + value)), Kept(c.mid) + ([COLON] + (Kept(c.colon) + v)));
      BlanksMinified(c.before, [QUOTE] + (c.key + ([QUOTE] + (c.mid + ([COLON] + (c.colon + value))))));
    } else {
      BlanksMinified(c.before, value);
    }
  }

  // ---------- documents

  /** A text that parses to the end can be minified: the scan never runs past its terminator, the result parses to the
      end with the same value, and minifying it again changes nothing. */
  lemma MinifiedParses(text: seq<byte>)
    requires NulFree(text) && Parse(text, true).Some?
    ensures var m := Minified(text);
      && m.Some? && Parse(m.value, true).Some? && Parse(m.value, true).value.value == Parse(text, true).value.value
      && Minified(m.value) == m
  {
    var d := DocumentRead(text);
    var b := Document(d.marked, Kept(d.before), Bare(d.tree), Kept(d.after));
    BareFine(d.tree, 0);
    KeptTwice(d.before);
    KeptTwice(d.after);
    BareTwice(d.tree);
    hide Parse, Minified, Emit, Bare, Kept, Fine, Value, NulFree;
    DocumentMinified(d);
    DocumentMinified(b);
    DocumentParses(b);
  }

  lemma DocumentMinified(d: Document)
    requires WellFormed(d)
    ensures Minified(Rendered(d)) == Some(Rendered(Document(d.marked, Kept(d.before), Bare(d.tree), Kept(d.after))))
  {
    assert d.after + [] == d.after && Kept(d.after) + [] == Kept(d.after);
    BlanksMinified(d.after, []);
    assert Minified([]) == Some([]);
    hide Minified, Emit, Bare, Kept, Fine;
    TreeMinified(d.tree, d.after, Kept(d.after), 0);
    BlanksMinified(d.before, Emit(d.tree, d.after));
    PlainStays(if d.marked then MARK else [], d.before + Emit(d.tree, d.after));
  }
}

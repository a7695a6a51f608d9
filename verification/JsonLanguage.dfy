/** The exact language of cJSON_ParseWithOpts, with the rules for strings and numbers written out: which texts are
    accepted, and with which value. */
module JsonLanguage {
  import opened Common
  import opened JsonString
  import opened Json
  import opened JsonGrammar
  import opened JsonAccepted
  import opened JsonLiteral
  import opened JsonNumeral
  import P = JsonPieces

  /** A literal without a zero byte that stands for `text`. */
  ghost predicate IsLiteral(raw: seq<byte>, text: seq<byte>) { NulFree(raw) && Stands(raw, text) }

  ghost predicate IsNumeral(l: seq<byte>) { |l| <= 63 && exists n :: Proper(n) && Lexical(n) == l }

  /** A syntax tree at nesting depth `depth` is well formed and has the value `j`. */
  ghost predicate Denotes(t: Tree, j: Json, depth: nat)
    decreases t, 0
  {
    match t
    case Word(w) => (w.Null? || w.False? || w.True?) && j == w
    case Numeral(l) => IsNumeral(l) && j == Number(l)
    case Quoted(raw) => j.Text? && IsLiteral(raw, j.text)
    case List(items, w) =>
      && depth < NESTING_LIMIT && Blanks(w) && (items.Cell? ==> w == [])
      && j.Array? && DenotesCells(items, false, j.items, depth + 1)
    case Record(members, w) =>
      && depth < NESTING_LIMIT && Blanks(w) && (members.Cell? ==> w == [])
      && j.Object? && DenotesCells(members, true, j.members, depth + 1)
  }

  ghost predicate DenotesCells(c: Cells, keyed: bool, kids: Kids, depth: nat)
    decreases c, 1
  {
    if c.Stop? then kids.End?
    else
      && kids.Kid? && Blanks(c.before) && Blanks(c.after)
      && Denotes(c.value, kids.value, depth) && DenotesCells(c.next, keyed, kids.next, depth)
      && if keyed then Blanks(c.mid) && Blanks(c.colon) && IsLiteral(c.key, kids.key) else kids.key == []
  }

  lemma LiteralValue(raw: seq<byte>, text: seq<byte>)
    ensures IsLiteral(raw, text) <==> NulFree(raw) && Literally(raw) == Some(text)
  {
    hide Literally, Stands;
    LiteralExactly(raw, text);
  }

  lemma {:induction false} DenotesExactly(t: Tree, j: Json, depth: nat)
    ensures Denotes(t, j, depth) <==> Fine(t, depth) && Value(t) == j
    decreases t, 0
  {
    hide Literally, IsLiteral, IsNumeral, Numeric;
    match t
    case Word(_) =>
    case Numeral(l) => NumeralValue(l);
    case Quoted(raw) =>
      if j.Text? {
        LiteralValue(raw, j.text);
      }
    case List(items, w) =>
      if j.Array? {
        CellsExactly(items, false, j.items, depth + 1);
      }
    case Record(members, w) =>
      if j.Object? {
        CellsExactly(members, true, j.members, depth + 1);
      }
  }

  lemma NumeralValue(l: seq<byte>)
    ensures IsNumeral(l) <==> Numeric(l)
  {
    hide Numeric;
    NumericExactly(l);
  }

  lemma {:induction false} CellsExactly(c: Cells, keyed: bool, kids: Kids, depth: nat)
    ensures DenotesCells(c, keyed, kids, depth) <==> FineCells(c, keyed, depth) && Values(c, keyed) == kids
    decreases c, 1
  {
    hide Literally, IsLiteral, Fine, Value, Denotes;
    if c.Cell? && kids.Kid? {
      DenotesExactly(c.value, kids.value, depth);
      CellsExactly(c.next, keyed, kids.next, depth);
      LiteralValue(c.key, kids.key);
    }
  }

  /** A byte order mark or none, blanks, a tree that denotes `j`, and blanks. */
  ghost predicate Says(d: Document, j: Json) { Blanks(d.before) && Denotes(d.tree, j, 0) && Blanks(d.after) }

  /** The language of cJSON_ParseWithOpts with require_null_terminated: a C string is accepted with value `j` exactly
      when it is the text of a document that says `j`. */
  lemma AcceptedExactly(text: seq<byte>, j: Json)
    requires NulFree(text)
    ensures (Parse(text, true).Some? && Parse(text, true).value.value == j)
      <==> exists d :: Says(d, j) && Rendered(d) == text
  {
    hide Denotes, Parse, Fine, Value, Rendered, Blanks;
    if Parse(text, true).Some? && Parse(text, true).value.value == j {
      var d := DocumentRead(text);
      DenotesExactly(d.tree, j, 0);
    }
    if d :| Says(d, j) && Rendered(d) == text {
      DenotesExactly(d.tree, j, 0);
      DocumentParses(d);
    }
  }

  // ---------- literals outside the standard

  /** A backslash and u with four bytes that are no digits stands for a zero byte. */
  lemma NoDigits()
    ensures Stands([BACKSLASH, LETTER_U, 122, 122, 122, 122], [0])
  {
    var z: seq<byte> := [122, 122, 122, 122];
    var raw := [BACKSLASH, LETTER_U] + z;
    var us := AddPlain(122, P.NoUnits);
    var vs := CodeUnits(122, 122, 122, us);
    assert P.Flat(P.NoUnits) == [] && P.Flat(vs) == raw;
    OneCode(z, []);
    assert SpelledAll([Code(z)]) == raw;
    assert [0] + [] == [0];
    hide P.Even, P.Flat, SpelledAll, Meant, AllLoose;
    assert raw == [BACKSLASH, LETTER_U, 122, 122, 122, 122];
  }

  /** Where those four bytes end in a backslash, the first pass takes it and the byte behind it for one escape. The
      second pass then finds a backslash before the closing quote, and reads that quote as part of the text. */
  lemma QuoteTaken()
    ensures Stands([BACKSLASH, LETTER_U, 49, 50, 51, BACKSLASH, BACKSLASH], [0, QUOTE])
  {
    var d: seq<byte> := [49, 50, 51, BACKSLASH];
    var raw := [BACKSLASH, LETTER_U] + d + [BACKSLASH];
    var us := P.AddUnit([BACKSLASH, BACKSLASH], P.NoUnits);
    var vs := CodeUnits(49, 50, 51, us);
    assert P.Flat(us) == [BACKSLASH, BACKSLASH];
    assert P.Flat(vs) == raw;
    assert AllLoose([Dangling]) && Meant([Dangling]) == Some([QUOTE]) && SpelledAll([Dangling]) == [BACKSLASH];
    OneCode(d, [Dangling]);
    assert [0] + [QUOTE] == [0, QUOTE];
    hide P.Even, P.Flat, SpelledAll, Meant, AllLoose;
    assert raw == [BACKSLASH, LETTER_U, 49, 50, 51, BACKSLASH, BACKSLASH];
  }

  /** Four bytes that are not all digits, before other characters. */
  lemma OneCode(d: seq<byte>, cs: seq<Char>)
    requires |d| == 4 && HexValue(d[3]).None? && AllLoose(cs) && Meant(cs).Some?
    ensures AllLoose([Code(d)] + cs) && SpelledAll([Code(d)] + cs) == [BACKSLASH, LETTER_U] + d + SpelledAll(cs)
    ensures Meant([Code(d)] + cs) == Some([0] + Meant(cs).value)
  {
    var ds := [Code(d)] + cs;
    assert ds[1..] == cs;
    assert Hex4(d) == 0;
  }

  lemma AddPlain(x: byte, us: P.Units) returns (vs: P.Units)
    requires P.Even(us) && x != QUOTE && x != BACKSLASH
    ensures P.Even(vs) && P.Flat(vs) == [x] + P.Flat(us)
  {
    vs := P.AddUnit([x], us);
  }

  lemma CodeUnits(x: byte, y: byte, z: byte, us: P.Units) returns (vs: P.Units)
    requires P.Even(us) && x != QUOTE && x != BACKSLASH && y != QUOTE && y != BACKSLASH && z != QUOTE && z != BACKSLASH
    ensures P.Even(vs) && P.Flat(vs) == [BACKSLASH, LETTER_U, x, y, z] + P.Flat(us)
  {
    var c := AddPlain(z, us);
    var b := AddPlain(y, c);
    var a := AddPlain(x, b);
    vs := P.AddUnit([BACKSLASH, LETTER_U], a);
  }
}

/** cJSON_Parse, which reads a value from the beginning of a text and leaves what stands behind it. */
module JsonLeading {
  import opened Common
  import opened JsonString
  import opened Json
  import opened JsonRoundTrip
  import opened JsonGrammar
  import opened JsonAccepted
  import opened JsonNumeral
  import opened JsonLanguage

  // ---------- strtod takes the longest number

  lemma {:induction false} DigitsCut(x: seq<byte>, k: nat)
    requires k <= |x|
    ensures Digits(x[..k]) == if Digits(x) <= k then Digits(x) else k
  {
    if k > 0 && Digit(x[0]) {
      assert x[..k][1..] == x[1..][..k - 1];
      DigitsCut(x[1..], k - 1);
    }
  }

  lemma DecimalCut(x: seq<byte>, k: nat)
    requires k <= |x| && Decimal(x[..k]) > 0
    ensures Decimal(x[..k]) <= Decimal(x) && (Decimal(x[..k]) < k ==> Decimal(x[..k]) == Decimal(x))
  {
    var b := Digits(x);
    DigitsCut(x, k);
    hide Digits;
    if b < k && x[b] == POINT {
      assert x[..k][b + 1..] == x[b + 1..][..k - b - 1];
      DigitsCut(x[b + 1..], k - b - 1);
    }
  }

  lemma ExponentCut(x: seq<byte>, k: nat)
    requires 0 < k <= |x| && Exponent(x[..k]) == k
    ensures Exponent(x) >= k
  {
    var y := x[..k];
    var j := 1 + Sign(y[1..]);
    assert y[1..] == x[1..][..k - 1];
    assert y[j..] == x[j..][..k - j];
    DigitsCut(x[j..], k - j);
  }

  lemma StrtodCut(x: seq<byte>, k: nat)
    requires 0 < k <= |x| && Strtod(x[..k]) == k
    ensures Strtod(x) >= k
  {
    hide Decimal, Exponent;
    var y, a := x[..k], Sign(x);
    assert Sign(y) == a;
    assert y[a..] == x[a..][..k - a];
    var d := Decimal(y[a..]);
    DecimalCut(x[a..], k - a);
    if a + d < k {
      assert y[a + d..] == x[a + d..][..k - a - d];
      ExponentCut(x[a + d..], k - a - d);
    }
  }

  /** No longer beginning of the text is a number. */
  ghost predicate Longest(l: seq<byte>, rest: seq<byte>) {
    forall k | |l| < k <= |l + rest| :: !IsNumeral((l + rest)[..k])
  }

  /** A number is read as far as it goes. */
  lemma NumberMunch(l: seq<byte>, rest: seq<byte>)
    requires Numeric(l) && Terminated(rest) && Longest(l, rest)
    ensures Terminated(l + rest) && ParseNumber(l + rest) == Some(Result(Number(l), rest))
  {
    hide Strtod, Run, IsNumeral;
    var s := l + rest;
    var x := s[..Run(s, 63)];
    var n := Strtod(x);
    RunCovers(s, |l|, 63);
    assert x[..|l|] == l;
    StrtodCut(x, |l|);
    StrtodPrefix(x);
    assert x[..n] == s[..n];
    assert forall i | 0 <= i < n :: NumberByte(s[..n][i]);
    NumeralValue(s[..n]);
    assert s[..n][0] == l[0];
    assert n <= |l|;
    assert s[..n] == l && s[n..] == rest;
  }

  lemma {:induction false} RunCovers(s: seq<byte>, k: nat, max: nat)
    requires k <= |s| && k <= max && forall i | 0 <= i < k :: NumberByte(s[i])
    ensures Run(s, max) >= k
    decreases k
  {
    if k > 0 {
      RunCovers(s[1..], k - 1, max - 1);
    }
  }

  lemma NumberLongest(s: seq<byte>, l: seq<byte>, rest: seq<byte>)
    requires Terminated(s) && s == l + rest && ParseNumber(s) == Some(Result(Number(l), rest))
    ensures Longest(l, rest)
  {
    hide Strtod, Run, IsNumeral;
    var x := s[..Run(s, 63)];
    forall k | |l| < k <= |s|
      ensures !IsNumeral(s[..k])
    {
      if IsNumeral(s[..k]) {
        NumeralValue(s[..k]);
        assert forall i | 0 <= i < k :: s[i] == s[..k][i];
        RunCovers(s, k, 63);
        assert x[..k] == s[..k];
        StrtodCut(x, k);
      }
    }
  }

  // ---------- values

  /** What may stand behind a tree: anything but the rest of a longer number. */
  ghost predicate Ends(t: Tree, rest: seq<byte>) { t.Numeral? ==> Longest(t.lexeme, rest) }

  lemma LeadingParses(t: Tree, rest: seq<byte>)
    requires Fine(t, 0) && Terminated(rest) && Ends(t, rest)
    ensures Terminated(Emit(t, rest)) && ParseValue(Emit(t, rest), 0) == Some(Result(Value(t), rest))
  {
    if t.Numeral? {
      hide ParseItems, ParseMembers, JsonString.ParseString, SkipWs, ParseNumber, Longest;
      NumberMunch(t.lexeme, rest);
      NotKeyword(t.lexeme + rest);
    } else {
      hide ParseValue, Fine, Value, Emit;
      TreeParses(t, rest, 0);
    }
  }

  lemma LeadingReads(s: seq<byte>) returns (t: Tree)
    requires Clean(s) && ParseValue(s, 0).Some?
    ensures var r := ParseValue(s, 0).value; Reads(s, t, r.value, r.rest, 0) && Ends(t, r.rest)
  {
    t := ValueReads(s, 0);
    if t.Numeral? {
      NumeralRuns(s, t.lexeme, ParseValue(s, 0).value.rest);
    }
  }

  lemma NumeralRuns(s: seq<byte>, l: seq<byte>, rest: seq<byte>)
    requires Terminated(s) && s == l + rest && Numeric(l) && ParseValue(s, 0) == Some(Result(Number(l), rest))
    ensures Longest(l, rest)
  {
    hide ParseItems, ParseMembers, JsonString.ParseString, SkipWs, ParseNumber, Longest, Strtod;
    assert s[0] == l[0];
    NotKeyword(s);
    NumberLongest(s, l, rest);
  }

  // ---------- texts

  /** A byte order mark or none, blanks, and a tree. */
  datatype Opening = Opening(marked: bool, before: seq<byte>, tree: Tree)

  function Opened(o: Opening, rest: seq<byte>): seq<byte> {
    (if o.marked then MARK else []) + (o.before + Emit(o.tree, rest))
  }

  /** The text, its terminator included, begins with `o`, which denotes `j`, and goes on with `rest`. */
  ghost predicate Begins(text: seq<byte>, o: Opening, j: Json, rest: seq<byte>) {
    && Blanks(o.before) && Denotes(o.tree, j, 0) && Ends(o.tree, rest)
    && rest != [] && text + [0] == Opened(o, rest)
  }

  /** The language of cJSON_Parse: a C string is accepted with value `j` and what is left of it is `rest`, exactly when
      it is a byte order mark or none, blanks, the text of a tree that denotes `j`, and `rest`; if the tree is a number,
      it is one that goes on as long as it can. */
  lemma BeginsExactly(text: seq<byte>, j: Json, rest: seq<byte>)
    requires NulFree(text)
    ensures Parse(text, false) == Some(Result(j, rest)) <==> exists o :: Begins(text, o, j, rest)
  {
    if Parse(text, false) == Some(Result(j, rest)) {
      var o := OpeningRead(text);
      assert Begins(text, o, j, rest);
    }
    if o :| Begins(text, o, j, rest) {
      OpeningParses(text, o, j, rest);
    }
  }

  lemma OpeningRead(text: seq<byte>) returns (o: Opening)
    requires NulFree(text) && Parse(text, false).Some?
    ensures var r := Parse(text, false).value; Begins(text, o, r.value, r.rest)
  {
    hide ParseValue, SkipWs, Emit, Fine, Value, Denotes, Ends, Blanks;
    var s := text + [0];
    FreeClean(text);
    MarkSplit(s);
    hide Clean, SkipBom;
    var u := SkipBom(s);
    var before := SkipSplit(u);
    var t := LeadingReads(SkipWs(u));
    var r := ParseValue(SkipWs(u), 0).value;
    o := Opening(u != s, before, t);
    FromReads(SkipWs(u), t, r);
  }

  lemma FromReads(s: seq<byte>, t: Tree, r: Result)
    requires Reads(s, t, r.value, r.rest, 0)
    ensures Denotes(t, r.value, 0) && s == Emit(t, r.rest) && r.rest != []
  {
    hide Denotes, Fine, Value, Emit;
    DenotesExactly(t, r.value, 0);
  }

  lemma FreeClean(text: seq<byte>)
    requires NulFree(text)
    ensures Clean(text + [0])
  {
  }

  lemma MarkSplit(s: seq<byte>)
    requires Clean(s)
    ensures var u := SkipBom(s); Clean(u) && s == (if u != s then MARK else []) + u
  {
  }

  lemma OpeningParses(text: seq<byte>, o: Opening, j: Json, rest: seq<byte>)
    requires NulFree(text) && Begins(text, o, j, rest)
    ensures Parse(text, false) == Some(Result(j, rest))
  {
    hide ParseValue, SkipWs, Emit, Fine, Value, Denotes, Ends, Blanks, SkipBom;
    DenotesExactly(o.tree, j, 0);
    RestClean(text, o, rest);
    EmitEnds(o.tree, rest, 0);
    LeadingParses(o.tree, rest);
    var s := Emit(o.tree, rest);
    BlanksAreBlank(o.before);
    EmitLong(o.tree, rest, 0);
    MarkSkipped(o.marked, o.before, s);
    Visible(o.before, s);
  }

  /** A tree has at least one byte. */
  lemma EmitLong(t: Tree, rest: seq<byte>, depth: nat)
    requires Fine(t, depth) && Terminated(rest)
    ensures |Emit(t, rest)| > 1
  {
    EmitEnds(t, rest, depth);
    hide Emit, Fine;
  }

  /** Asking for the terminator refuses a text exactly when something but blanks stands behind its value, and changes
      nothing else. */
  lemma WholeExactly(text: seq<byte>, r: Result)
    requires NulFree(text)
    ensures Parse(text, true) == Some(r) <==>
      Parse(text, false) == Some(r) && exists w :: Blanks(w) && r.rest == w + [0]
  {
    hide ParseValue, SkipBom;
    var p := ParseValue(SkipWs(SkipBom(text + [0])), 0);
    if p == Some(r) {
      var o := OpeningRead(text);
      RestClean(text, o, r.rest);
      hide SkipWs, Emit, Denotes, Ends;
      if SkipWs(r.rest)[0] == 0 {
        var w := SkipSplit(r.rest);
        OnlyEnd(SkipWs(r.rest));
        assert Blanks(w) && r.rest == w + [0];
      }
      if w :| Blanks(w) && r.rest == w + [0] {
        TailSkipped(w);
      }
    }
  }

  lemma RestClean(text: seq<byte>, o: Opening, rest: seq<byte>)
    requires NulFree(text) && rest != [] && text + [0] == Opened(o, rest)
    ensures Clean(rest)
  {
    hide Emit;
    FreeClean(text);
    EmitMore(o.tree, [], rest);
    assert [] + rest == rest;
    var x := (if o.marked then MARK else []) + (o.before + Emit(o.tree, []));
    assert Opened(o, rest) == x + rest;
    CleanRest(text + [0], |x|);
    assert (x + rest)[|x|..] == rest;
  }
}

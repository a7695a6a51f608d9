/** The texts that cJSON_Minify can be given: exactly those made of blanks, other bytes, comments and literals that all
    come to an end. On every other C string it goes on behind the terminator. */
module JsonPieces {
  import opened Common
  import opened JsonString
  import opened Json
  import opened JsonMinify
  import opened JsonSweep

  // ---------- literals, unit by unit

  /** A string literal between its quotes: bytes, and backslashes with the byte behind each. */
  datatype Units = NoUnits | AddUnit(u: seq<byte>, next: Units)

  function Flat(us: Units): seq<byte> {
    if us.NoUnits? then [] else us.u + Flat(us.next)
  }

  predicate Even(us: Units) {
    us.AddUnit? ==>
      && (|| (|us.u| == 1 && us.u[0] != QUOTE && us.u[0] != BACKSLASH)
          || (|us.u| == 2 && us.u[0] == BACKSLASH))
      && Even(us.next)
  }

  /** The first quote outside a unit closes the literal. */
  lemma {:induction false} UnitsClose(us: Units, t: seq<byte>)
    requires Even(us)
    ensures Close(Flat(us) + ([QUOTE] + t)) == Some(|Flat(us)|)
    decreases us
  {
    var s := Flat(us) + ([QUOTE] + t);
    if us.NoUnits? {
      assert s[0] == QUOTE;
    } else {
      var rest := Flat(us.next) + ([QUOTE] + t);
      UnitsClose(us.next, t);
      assert s == us.u + rest;
      hide Flat;
      assert s[|us.u|..] == rest;
    }
  }

  /** A literal that is closed consists of units. */
  lemma {:induction false} CloseUnits(t: seq<byte>) returns (us: Units)
    requires Close(t).Some?
    ensures Even(us) && Flat(us) == t[..Close(t).value]
    decreases |t|
  {
    var e := Close(t).value;
    if t[0] == QUOTE {
      us := NoUnits;
    } else {
      var n := if t[0] == BACKSLASH then 2 else 1;
      var next := CloseUnits(t[n..]);
      us := AddUnit(t[..n], next);
      assert t[..e] == t[..n] + t[n..][..e - n];
    }
  }

  // ---------- pieces

  datatype Piece =
    | One(b: byte)
    | Line(body: seq<byte>)
    | Block(body: seq<byte>)
    | Enclosed(units: Units)

  datatype Pieces = NoPieces | AddPiece(p: Piece, next: Pieces)

  function Text(p: Piece): seq<byte> {
    match p
    case One(b) => [b]
    case Line(body) => [SLASH, SLASH] + body
    case Block(body) => [SLASH] + (body + [STAR, SLASH])
    case Enclosed(us) => [QUOTE] + (Flat(us) + [QUOTE])
  }

  /** What is left of a piece. */
  function Rest(p: Piece): seq<byte> {
    match p
    case One(b) => if b in {32, 9, 10, 13} then [] else [b]
    case Line(_) => []
    case Block(_) => []
    case Enclosed(_) => Text(p)
  }

  function Joined(ps: Pieces): seq<byte> { if ps.NoPieces? then [] else Text(ps.p) + Joined(ps.next) }
  function Rests(ps: Pieces): seq<byte> { if ps.NoPieces? then [] else Rest(ps.p) + Rests(ps.next) }

  /** The star and slash behind the body of a block comment are the first ones from its opening slash on. */
  predicate Unbroken(body: seq<byte>) {
    forall i | 0 <= i < |body| && body[i] == STAR :: i + 1 < |body| ==> body[i + 1] != SLASH
  }

  /** A piece may stand before `after`: a lone slash opens no comment, a line comment goes to the end of its line. */
  predicate Fits(p: Piece, after: seq<byte>) {
    match p
    case One(b) => b != QUOTE && (b == SLASH && after != [] ==> after[0] != SLASH && after[0] != STAR)
    case Line(body) => NEWLINE !in body && (after != [] ==> after[0] == NEWLINE)
    case Block(body) => (body != [] ==> body[0] == STAR) && Unbroken(body)
    case Enclosed(us) => Even(us)
  }

  predicate Fit(ps: Pieces) { ps.AddPiece? ==> Fits(ps.p, Joined(ps.next)) && Fit(ps.next) }

  // ---------- pieces are minified one by one

  lemma {:induction false} LineGoes(body: seq<byte>, after: seq<byte>)
    requires NEWLINE !in body && (after != [] ==> after[0] == NEWLINE)
    ensures InLine(body + after) == Minified(after)
  {
    if body == [] {
      assert body + after == after;
    } else {
      assert body[0] in body && forall b | b in body[1..] :: b in body;
      assert (body + after)[1..] == body[1..] + after;
      LineGoes(body[1..], after);
    }
  }

  lemma {:induction false} BlockGoes(body: seq<byte>, after: seq<byte>)
    requires Unbroken(body)
    ensures InComment(body + ([STAR, SLASH] + after)) == Minified(after)
  {
    hide Minified;
    var s := body + ([STAR, SLASH] + after);
    if body == [] {
      assert s[2..] == after;
    } else {
      assert s[1..] == body[1..] + ([STAR, SLASH] + after);
      assert forall i | 0 <= i < |body| - 1 :: body[1..][i] == body[i + 1];
      assert s[1] == if |body| > 1 then body[1] else STAR;
      BlockGoes(body[1..], after);
    }
  }

  lemma PieceMinified(p: Piece, after: seq<byte>)
    requires Fits(p, after)
    ensures Minified(Text(p) + after) == Prepend(Rest(p), Minified(after))
  {
    PrependNone(Minified(after));
    match p
    case One(b) => assert ([b] + after)[1..] == after;
    case Line(body) => LineMinified(body, after);
    case Block(body) => BlockMinified(body, after);
    case Enclosed(us) => EnclosedMinified(us, after);
  }

  lemma LineMinified(body: seq<byte>, after: seq<byte>)
    requires Fits(Line(body), after)
    ensures Minified([SLASH, SLASH] + body + after) == Minified(after)
  {
    var s := [SLASH, SLASH] + body + after;
    LineGoes([SLASH, SLASH] + body, after);
    hide InLine;
    assert s[0] == s[1] == SLASH;
  }

  lemma BlockMinified(body: seq<byte>, after: seq<byte>)
    requires Fits(Block(body), after)
    ensures Minified([SLASH] + (body + [STAR, SLASH]) + after) == Minified(after)
  {
    var s := [SLASH] + (body + [STAR, SLASH]) + after;
    var open := [SLASH] + body;
    assert forall i | 0 < i < |open| :: open[i] == body[i - 1];
    BlockGoes(open, after);
    hide InComment;
    assert s == open + ([STAR, SLASH] + after);
    assert s[0] == SLASH && s[1] == STAR;
  }

  lemma EnclosedMinified(us: Units, after: seq<byte>)
    requires Even(us)
    ensures Minified([QUOTE] + (Flat(us) + [QUOTE]) + after) == Prepend([QUOTE] + (Flat(us) + [QUOTE]), Minified(after))
  {
    UnitsClose(us, []);
    hide Even, Flat, Close, Minified, Prepend;
    var x := Flat(us) + [QUOTE];
    assert [QUOTE] + [] == [QUOTE];
    WholeLiteral(x, after);
  }

  lemma WholeLiteral(x: seq<byte>, after: seq<byte>)
    requires x != [] && Close(x) == Some(|x| - 1)
    ensures Minified([QUOTE] + x + after) == Prepend([QUOTE] + x, Minified(after))
  {
    hide Close, Minified, InLiteral, Prepend;
    LiteralStays(x, after);
    OpenLiteral(x + after);
    PrependTwice([QUOTE], x, Minified(after));
    assert [QUOTE] + x + after == [QUOTE] + (x + after);
  }

  lemma OpenLiteral(t: seq<byte>)
    ensures Minified([QUOTE] + t) == Prepend([QUOTE], InLiteral(t))
  {
    assert ([QUOTE] + t)[1..] == t;
  }

  lemma {:induction false} PiecesMinified(ps: Pieces)
    requires Fit(ps)
    ensures Minified(Joined(ps)) == Some(Rests(ps))
    decreases ps
  {
    if ps.AddPiece? {
      PieceMinified(ps.p, Joined(ps.next));
      PiecesMinified(ps.next);
    }
  }

  // ---------- every text that can be minified consists of pieces

  lemma {:induction false} LineEnds(s: seq<byte>) returns (n: nat)
    ensures n <= |s| && NEWLINE !in s[..n] && (n < |s| ==> s[n] == NEWLINE)
  {
    n := 0;
    if s != [] && s[0] != NEWLINE {
      var k := LineEnds(s[1..]);
      n := k + 1;
      assert s[..n] == [s[0]] + s[1..][..k];
    }
  }

  lemma {:induction false} BlockEnds(s: seq<byte>) returns (n: nat)
    requires InComment(s).Some?
    ensures n + 2 <= |s| && s[n] == STAR && s[n + 1] == SLASH && Unbroken(s[..n])
    ensures n > 0 && s[n - 1] == STAR ==> s[n] != SLASH
  {
    n := 0;
    if !(s[0] == STAR && |s| > 1 && s[1] == SLASH) {
      var k := BlockEnds(s[1..]);
      n := k + 1;
      assert s[..n] == [s[0]] + s[1..][..k];
    }
  }

  lemma {:induction false} LiteralCloses(t: seq<byte>)
    requires InLiteral(t).Some?
    ensures Close(t).Some?
    decreases |t|
  {
    hide Minified;
    if t[0] == BACKSLASH {
      LiteralCloses(t[2..]);
    } else if t[0] != QUOTE {
      LiteralCloses(t[1..]);
    }
  }

  /** The first piece of a text. */
  lemma FirstPiece(s: seq<byte>) returns (p: Piece, after: seq<byte>)
    requires s != [] && Minified(s).Some?
    ensures s == Text(p) + after && Fits(p, after)
  {
    hide InLine, InComment, InLiteral;
    if s[0] == SLASH && |s| > 1 && s[1] == SLASH {
      p, after := FirstLine(s);
    } else if s[0] == SLASH && |s| > 1 && s[1] == STAR {
      p, after := FirstBlock(s);
    } else if s[0] == QUOTE {
      p, after := FirstLiteral(s);
    } else {
      p, after := One(s[0]), s[1..];
    }
  }

  lemma FirstLine(s: seq<byte>) returns (p: Piece, after: seq<byte>)
    requires |s| > 1 && s[0] == s[1] == SLASH
    ensures s == Text(p) + after && Fits(p, after)
  {
    var n := LineEnds(s[2..]);
    p, after := Line(s[2..][..n]), s[2..][n..];
    assert s[2..] == s[2..][..n] + s[2..][n..] && s == [SLASH, SLASH] + s[2..];
  }

  lemma FirstBlock(s: seq<byte>) returns (p: Piece, after: seq<byte>)
    requires |s| > 1 && s[0] == SLASH && s[1] == STAR && InComment(s).Some?
    ensures s == Text(p) + after && Fits(p, after)
  {
    var n := BlockEnds(s);
    hide InComment;
    p, after := Block(s[1..n]), s[n + 2..];
    assert forall i | 0 <= i < n - 1 :: s[1..n][i] == s[..n][i + 1];
    assert s == [SLASH] + (s[1..n] + [STAR, SLASH]) + s[n + 2..];
  }

  lemma FirstLiteral(s: seq<byte>) returns (p: Piece, after: seq<byte>)
    requires s != [] && s[0] == QUOTE && InLiteral(s[1..]).Some?
    ensures s == Text(p) + after && Fits(p, after)
  {
    hide InLiteral;
    LiteralCloses(s[1..]);
    var e := Close(s[1..]).value;
    var us := CloseUnits(s[1..]);
    hide Close;
    p, after := Enclosed(us), s[e + 2..];
    assert s == [QUOTE] + (s[1..][..e] + [QUOTE]) + s[e + 2..];
  }

  lemma {:induction false} MinifiedPieces(s: seq<byte>) returns (ps: Pieces)
    requires Minified(s).Some?
    ensures Fit(ps) && Joined(ps) == s
    decreases |s|
  {
    if s == [] {
      ps := NoPieces;
    } else {
      var p, after := FirstPiece(s);
      PieceMinified(p, after);
      hide Minified;
      var next := MinifiedPieces(after);
      ps := AddPiece(p, next);
    }
  }

  /** A C string is minified to `out` exactly when it consists of pieces of which `out` is left. */
  lemma MinifiedExactly(s: seq<byte>, out: seq<byte>)
    ensures Minified(s) == Some(out) <==> exists ps :: Fit(ps) && Joined(ps) == s && Rests(ps) == out
  {
    if Minified(s) == Some(out) {
      var ps := MinifiedPieces(s);
      PiecesMinified(ps);
    }
    if ps :| Fit(ps) && Joined(ps) == s && Rests(ps) == out {
      PiecesMinified(ps);
    }
  }

  // ---------- behind the terminator

  /** The scan of memory that begins with the C string `s`, in terms of that string alone. */
  ghost predicate Inside(r: Option<Pass>, o: Option<seq<byte>>, b: seq<byte>) {
    if o.Some? then r == Some(Pass(o.value, [0] + b)) else r.Some? ==> |r.value.left| <= |b|
  }

  lemma InsideMore(x: seq<byte>, r: Option<Pass>, o: Option<seq<byte>>, b: seq<byte>)
    requires Inside(r, o, b)
    ensures Inside(Put(x, r), Prepend(x, o), b)
  {
  }

  /** Memory that begins with a C string, from its `k`-th byte on. */
  lemma Onward(s: seq<byte>, b: seq<byte>, k: nat)
    requires NulFree(s) && k <= |s|
    ensures var m := s + ([0] + b);
      && m[k..] == s[k..] + ([0] + b) && m[..k] == s[..k] && NulFree(s[k..])
      && (forall i | 0 <= i < |s| :: m[i] == s[i] != 0) && m[|s|] == 0
  {
  }

  lemma {:induction false} SweptInside(s: seq<byte>, b: seq<byte>)
    requires NulFree(s)
    ensures Inside(Swept(s + ([0] + b)), Minified(s), b)
    decreases |s|, 1
  {
    hide SweptLine, SweptBlock, SweptLiteral, InLine, InComment, InLiteral, Inside, Bounded, Put, Prepend;
    var m := s + ([0] + b);
    if s == [] {
      AtTerminator(b);
      assert m == [0] + b;
    } else {
      Onward(s, b, 1);
      hide NulFree;
      if White(s[0]) {
        SweptInside(s[1..], b);
      } else if s[0] == SLASH && |s| > 1 && s[1] == SLASH {
        LineInside(s, b);
      } else if s[0] == SLASH && |s| > 1 && s[1] == STAR {
        BlockInside(s, b);
      } else if s[0] == QUOTE {
        LiteralInside(s[1..], b);
        InsideMore([QUOTE], SweptLiteral(m[1..]), InLiteral(s[1..]), b);
      } else {
        SweptInside(s[1..], b);
        InsideMore([s[0]], Swept(m[1..]), Minified(s[1..]), b);
      }
    }
  }

  lemma AtTerminator(b: seq<byte>)
    ensures Inside(Some(Pass([], [0] + b)), Some([]), b)
  {
  }

  lemma {:induction false} LineInside(s: seq<byte>, b: seq<byte>)
    requires NulFree(s)
    ensures Inside(SweptLine(s + ([0] + b)), InLine(s), b)
    decreases |s|, 0
  {
    hide Swept, Minified, Inside, Bounded;
    var m := s + ([0] + b);
    if s == [] {
      AtTerminator(b);
      assert m == [0] + b;
    } else {
      Onward(s, b, 1);
      hide NulFree;
      if s[0] == NEWLINE {
        SweptInside(s[1..], b);
      } else {
        LineInside(s[1..], b);
      }
    }
  }

  lemma {:induction false} BlockInside(s: seq<byte>, b: seq<byte>)
    requires NulFree(s)
    ensures Inside(SweptBlock(s + ([0] + b)), InComment(s), b)
    decreases |s|, 0
  {
    hide Swept, Minified, Bounded;
    var m := s + ([0] + b);
    if s == [] {
      assert m == [0] + b;
      BeyondBlock(b);
    } else {
      Onward(s, b, 1);
      if s[0] == STAR && |s| > 1 && s[1] == SLASH {
        Onward(s, b, 2);
        hide Inside, NulFree;
        SweptInside(s[2..], b);
      } else {
        hide Inside, NulFree;
        BlockInside(s[1..], b);
      }
    }
  }

  lemma BeyondBlock(b: seq<byte>)
    ensures Inside(SweptBlock([0] + b), None, b)
  {
    hide Swept;
  }

  lemma {:induction false} LiteralInside(s: seq<byte>, b: seq<byte>)
    requires NulFree(s)
    ensures Inside(SweptLiteral(s + ([0] + b)), InLiteral(s), b)
    decreases |s|, 0
  {
    hide Swept, Minified, Inside, Bounded, Put, Prepend;
    var m := s + ([0] + b);
    if s == [] {
      assert m == [0] + b;
      BeyondLiteral(b);
    } else {
      Onward(s, b, 1);
      if s[0] == QUOTE {
        hide NulFree;
        SweptInside(s[1..], b);
        InsideMore([QUOTE], Swept(m[1..]), Minified(s[1..]), b);
      } else if s[0] != BACKSLASH {
        hide NulFree;
        LiteralInside(s[1..], b);
        InsideMore([s[0]], SweptLiteral(m[1..]), InLiteral(s[1..]), b);
      } else if |s| == 1 {
        assert m == [BACKSLASH, 0] + b;
        BeyondEscape(b);
      } else {
        Onward(s, b, 2);
        hide NulFree;
        LiteralInside(s[2..], b);
        InsideMore(s[..2], SweptLiteral(m[2..]), InLiteral(s[2..]), b);
      }
    }
  }

  lemma BeyondLiteral(b: seq<byte>)
    ensures Inside(SweptLiteral([0] + b), None, b)
  {
    hide Swept;
    assert ([0] + b)[1..] == b;
  }

  lemma BeyondEscape(b: seq<byte>)
    ensures Inside(SweptLiteral([BACKSLASH, 0] + b), None, b)
  {
    var m := [BACKSLASH, 0] + b;
    assert m[2..] == b;
    assert SweptLiteral(m) == Put(m[..2], SweptLiteral(b));
  }

  /** Whatever stands behind the terminator: the scan stops at the terminator, with `out` written, if and only if the C
      string consists of pieces of which `out` is left. */
  lemma StopsInside(s: seq<byte>, b: seq<byte>, out: seq<byte>)
    requires NulFree(s)
    ensures Swept(s + ([0] + b)) == Some(Pass(out, [0] + b))
      <==> exists ps :: Fit(ps) && Joined(ps) == s && Rests(ps) == out
  {
    SweptInside(s, b);
    MinifiedExactly(s, out);
  }

  /** A block comment, a literal and an escape left open: the scan does not stop at the terminator. */
  lemma LeftOpen()
    ensures Minified([SLASH, STAR]) == Minified([QUOTE, 97]) == Minified([QUOTE, 97, BACKSLASH]) == None
  {
    assert InComment([SLASH, STAR][1..][1..]) == None;
    assert InComment([SLASH, STAR][1..]) == None;
    assert InLiteral([QUOTE, 97][1..][1..]) == None;
    assert InLiteral([QUOTE, 97, BACKSLASH][1..][1..]) == None;
  }

  /** A blank, a quote and an a, with an x and a zero behind the terminator: the terminator ends the literal and moves
      down, the x takes its place and the new terminator that of the x. */
  lemma TerminatorMoves()
    ensures Swept([SPACE, QUOTE, 97, 0, 120, 0]) == Some(Pass([QUOTE, 97, 0, 120], [0]))
  {
    hide Swept;
    var m: seq<byte> := [SPACE, QUOTE, 97, 0, 120, 0];
    SixBytes(m);
    assert m[5..] == [0];
  }

  lemma SixBytes(m: seq<byte>)
    requires |m| == 6 && m[0] == SPACE && m[1] == QUOTE && m[2] == 97 && m[3] == 0 && m[4] == 120 && m[5] == 0
    ensures Swept(m) == Some(Pass([QUOTE, 97, 0, 120], m[5..]))
  {
    hide Swept, SweptLiteral, Bounded;
    var w, x, y, z: seq<byte> := [], [120], [0, 120], [97, 0, 120];
    assert [m[4]] + w == x && [m[3]] + x == y && [m[2]] + y == z && [QUOTE] + z == [QUOTE, 97, 0, 120];
    Stopped(m, 5);
    Unfold(m, 4);
    LiteralUnfold(m, 3);
    LiteralUnfold(m, 2);
    Unfold(m, 1);
    Unfold(m, 0);
    assert m[0..] == m;
  }
}

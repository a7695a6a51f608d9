/** The grammar of RFC 8259 for numbers (section 6), strings (section 7) and blanks (section 2), and how much of it
    cJSON accepts. */
module JsonStandard {
  import opened Common
  import opened JsonString
  import opened Json
  import opened JsonRoundTrip
  import opened JsonMinify
  import opened JsonGrammar
  import opened JsonLiteral
  import opened JsonNumeral

  // ---------- strings

  /** One `char` of the grammar; an unescaped character appears as the bytes of its UTF-8 form. */
  ghost predicate Regular(c: Char) {
    match c
    case Unescaped(b) => b >= 0x20 && b != QUOTE && b != BACKSLASH
    case Short(letter) => letter in SHORT
    case Code(digits) => |digits| == 4 && forall i | 0 <= i < 4 :: HexValue(digits[i]).Some?
    case Dangling => false
  }

  ghost predicate AllRegular(cs: seq<Char>) { forall i | 0 <= i < |cs| :: Regular(cs[i]) }

  /** The digits of a code unit, with capital or small letters. */
  function HexText(u: nat, capital: bool): seq<byte>
    requires u < 0x1_0000
  {
    var a, b, c, d := u / 4096, u / 256 % 16, u / 16 % 16, u % 16;
    [Figure16(a, capital), Figure16(b, capital), Figure16(c, capital), Figure16(d, capital)]
  }

  function Figure16(n: nat, capital: bool): byte
    requires n < 16
  {
    if n < 10 then 48 + n else if capital then 55 + n else 87 + n
  }

  /** Four hexadecimal digits are read as the code unit that they write, and nothing else is a digit. */
  lemma UnitWritten(u: nat, capital: bool)
    requires u < 0x1_0000
    ensures Regular(Code(HexText(u, capital))) && Unit(Code(HexText(u, capital))) == u
    ensures forall b: byte :: HexValue(b).Some? <==> 48 <= b <= 57 || 65 <= b <= 70 || 97 <= b <= 102
  {
    DigitRead(u / 4096, capital);
    DigitRead(u / 256 % 16, capital);
    DigitRead(u / 16 % 16, capital);
    DigitRead(u % 16, capital);
    OnlyDigits();
    hide HexValue, Figure16;
    FourDigits(u);
  }

  lemma DigitRead(n: nat, capital: bool)
    requires n < 16
    ensures HexValue(Figure16(n, capital)) == Some(n)
  {
  }

  lemma OnlyDigits()
    ensures forall b: byte :: HexValue(b).Some? <==> 48 <= b <= 57 || 65 <= b <= 70 || 97 <= b <= 102
  {
  }

  lemma FourDigits(u: nat)
    requires u < 0x1_0000
    ensures u / 4096 * 4096 + u / 256 % 16 * 256 + u / 16 % 16 * 16 + u % 16 == u
  {
    Sixteenth(u, 1);
    Sixteenth(u, 16);
    Sixteenth(u, 256);
  }

  lemma Sixteenth(u: nat, m: nat)
    requires m == 1 || m == 16 || m == 256
    ensures u / m == 16 * (u / (16 * m)) + u / m % 16
  {
  }

  lemma {:induction false} SpelledCloses(cs: seq<Char>)
    requires AllRegular(cs)
    ensures Close(SpelledAll(cs) + [QUOTE]) == Some(|SpelledAll(cs)|) && NulFree(SpelledAll(cs))
  {
    if cs == [] {
      assert SpelledAll(cs) + [QUOTE] == [QUOTE];
    } else {
      var x, y := Spelled(cs[0]), SpelledAll(cs[1..]);
      SpelledCloses(cs[1..]);
      CharFree(cs[0]);
      assert SpelledAll(cs) == x + y;
      hide SpelledAll, Spelled, Close;
      CharCloses(cs[0], y + [QUOTE]);
      Grouped(x, y);
    }
  }

  lemma CharFree(c: Char)
    requires Regular(c)
    ensures NulFree(Spelled(c))
  {
  }

  lemma CharCloses(c: Char, t: seq<byte>)
    requires Regular(c) && Close(t).Some?
    ensures Close(Spelled(c) + t) == Some(|Spelled(c)| + Close(t).value)
  {
    hide Close;
    if c.Unescaped? {
      PlainClose([c.b], t);
    } else {
      EscapePlain(c);
      hide Spelled, Regular;
      EscapeCloses(Spelled(c), t);
    }
  }

  lemma EscapePlain(c: Char)
    requires Regular(c) && !c.Unescaped?
    ensures |Spelled(c)| > 1 && Spelled(c)[0] == BACKSLASH
    ensures forall i | 2 <= i < |Spelled(c)| :: Spelled(c)[i] != QUOTE && Spelled(c)[i] != BACKSLASH
  {
    assert c.Code? ==> forall i | 0 <= i < 4 :: c.digits[i] != QUOTE && c.digits[i] != BACKSLASH;
  }

  lemma EscapeCloses(x: seq<byte>, t: seq<byte>)
    requires |x| > 1 && x[0] == BACKSLASH && forall i | 2 <= i < |x| :: x[i] != QUOTE && x[i] != BACKSLASH
    requires Close(t).Some?
    ensures Close(x + t) == Some(|x| + Close(t).value)
  {
    hide Close;
    PlainClose(x[2..], t);
    CloseMark(x, t);
  }

  /** Both passes of parse_string read a string of the standard as the standard means it, whatever is escaped and
      however; a surrogate without its partner is the one thing they refuse. */
  lemma LiteralMeant(cs: seq<Char>)
    requires AllRegular(cs)
    ensures Literally(SpelledAll(cs)) == Meant(cs)
  {
    SpelledCloses(cs);
    DecodeMeant(cs);
  }

  // ---------- numbers

  /** [ minus ] int [ frac ] [ exp ]; an empty part is one left out. */
  datatype Figure = Figure(
    minus: bool, whole: seq<byte>, fraction: seq<byte>, letter: byte, sign: seq<byte>, power: seq<byte>)

  ghost predicate RegularNumber(n: Figure) {
    && AllDigits(n.whole) && n.whole != [] && (n.whole[0] == 48 ==> |n.whole| == 1)
    && AllDigits(n.fraction) && AllDigits(n.power)
    && (n.letter == 101 || n.letter == 69) && (n.sign == [] || n.sign == [43] || n.sign == [MINUS])
  }

  function Fraction(n: Figure): seq<byte> { if n.fraction == [] then [] else [46] + n.fraction }
  function Power(n: Figure): seq<byte> { if n.power == [] then [] else [n.letter] + (n.sign + n.power) }
  function SpelledNumber(n: Figure): seq<byte> {
    (if n.minus then [MINUS] else []) + (n.whole + (Fraction(n) + Power(n)))
  }

  /** A number of the standard is one that parse_number knows. */
  function AsWritten(n: Figure): Written { Written(n.minus, n.whole, Fraction(n), Power(n)) }

  lemma FigureProper(n: Figure)
    requires RegularNumber(n)
    ensures Proper(AsWritten(n)) && Lexical(AsWritten(n)) == SpelledNumber(n)
  {
    FractionProper(n);
    PowerProper(n);
    hide Fraction, Power;
  }

  lemma FractionProper(n: Figure)
    requires RegularNumber(n)
    ensures IsPoint(Fraction(n))
  {
    if n.fraction != [] {
      assert Fraction(n)[1..] == n.fraction;
    }
  }

  lemma PowerProper(n: Figure)
    requires RegularNumber(n)
    ensures IsPower(Power(n))
  {
    if n.power != [] {
      var x := n.sign + n.power;
      assert Power(n)[1..] == x && Sign(x) == |n.sign| && x[|n.sign|..] == n.power;
      assert Power(n)[1 + |n.sign|..] == x[|n.sign|..];
    }
  }

  /** strtod takes every number of the standard whole. */
  lemma StrtodAll(n: Figure)
    requires RegularNumber(n)
    ensures Strtod(SpelledNumber(n)) == |SpelledNumber(n)|
  {
    FigureProper(n);
    hide Strtod, SpelledNumber;
    StrtodWritten(AsWritten(n));
  }
}

/** The numbers that cJSON accepts, without strtod: how they are written. */
module JsonNumeral {
  import opened Common
  import opened Json
  import opened JsonGrammar

  const POINT: byte := 46

  ghost predicate AllDigits(x: seq<byte>) { forall i | 0 <= i < |x| :: 48 <= x[i] <= 57 }

  /** Nothing, or a point with any number of digits. */
  ghost predicate IsPoint(x: seq<byte>) { x == [] || (x[0] == POINT && AllDigits(x[1..])) }

  predicate Letter(b: byte) { b == 101 || b == 69 }

  /** Nothing, or an exponent with a sign or none and at least one digit. */
  ghost predicate IsPower(x: seq<byte>) {
    x == [] || (Letter(x[0]) && 1 + Sign(x[1..]) < |x| && AllDigits(x[1 + Sign(x[1..])..]))
  }

  /** Leading zeros are allowed, and so is a point without digits on one side, if a digit or a minus comes first. */
  datatype Written = Written(minus: bool, whole: seq<byte>, point: seq<byte>, power: seq<byte>)

  ghost predicate Proper(n: Written) {
    && AllDigits(n.whole) && IsPoint(n.point) && IsPower(n.power)
    && (n.whole != [] || (n.minus && |n.point| > 1))
  }

  function Lexical(n: Written): seq<byte> {
    (if n.minus then [MINUS] else []) + (n.whole + (n.point + n.power))
  }

  // ---------- strtod takes what is written so

  lemma {:induction false} DigitsAll(x: seq<byte>, rest: seq<byte>)
    requires AllDigits(x) && (rest == [] || !Digit(rest[0]))
    ensures Digits(x + rest) == |x|
  {
    if x == [] {
      assert x + rest == rest;
    } else {
      assert (x + rest)[1..] == x[1..] + rest;
      DigitsAll(x[1..], rest);
    }
  }

  lemma DecimalAll(whole: seq<byte>, point: seq<byte>, power: seq<byte>)
    requires AllDigits(whole) && IsPoint(point) && IsPower(power) && (whole != [] || |point| > 1)
    ensures Decimal(whole + (point + power)) == |whole| + |point|
  {
    var s := whole + (point + power);
    DigitsAll(whole, point + power);
    hide Digits;
    if point != [] {
      DigitsAll(point[1..], power);
      assert s[|whole| + 1..] == point[1..] + power;
    } else {
      assert point + power == power;
    }
  }

  lemma ExponentAll(power: seq<byte>)
    requires IsPower(power)
    ensures Exponent(power) == |power|
  {
    if power != [] {
      var d := power[1 + Sign(power[1..])..];
      assert d + [] == d;
      DigitsAll(d, []);
    }
  }

  lemma StrtodParts(minus: bool, whole: seq<byte>, f: seq<byte>, p: seq<byte>)
    requires (whole != [] && Digit(whole[0])) || minus
    requires Decimal(whole + (f + p)) == |whole| + |f| > 0 && Exponent(p) == |p|
    ensures var s := (if minus then [MINUS] else []) + (whole + (f + p)); Strtod(s) == |s|
  {
    hide Decimal, Exponent;
    var s := (if minus then [MINUS] else []) + (whole + (f + p));
    var a := Sign(s);
    assert a == if minus then 1 else 0;
    assert s[a..] == whole + (f + p);
    assert s[a + |whole| + |f|..] == p;
  }

  lemma StrtodWritten(n: Written)
    requires Proper(n)
    ensures Strtod(Lexical(n)) == |Lexical(n)|
  {
    DecimalAll(n.whole, n.point, n.power);
    ExponentAll(n.power);
    hide Decimal, Exponent, IsPower, IsPoint;
    StrtodParts(n.minus, n.whole, n.point, n.power);
  }

  ghost predicate AllNumber(x: seq<byte>) { forall i | 0 <= i < |x| :: NumberByte(x[i]) }

  lemma NumberJoin(x: seq<byte>, y: seq<byte>)
    requires AllNumber(x) && AllNumber(y)
    ensures AllNumber(x + y)
  {
  }

  lemma NumberBytes(n: Written)
    requires Proper(n)
    ensures var l := Lexical(n); l != [] && (l[0] == MINUS || Digit(l[0])) && AllNumber(l)
  {
    PowerBytes(n.power);
    PointBytes(n.point);
    assert AllNumber(n.whole) && AllNumber(if n.minus then [MINUS] else []);
    hide IsPoint, IsPower;
    NumberJoin(n.point, n.power);
    NumberJoin(n.whole, n.point + n.power);
    NumberJoin(if n.minus then [MINUS] else [], n.whole + (n.point + n.power));
  }

  lemma PowerBytes(x: seq<byte>)
    requires IsPower(x)
    ensures AllNumber(x)
  {
    if x != [] {
      var k := 1 + Sign(x[1..]);
      assert x == x[..k] + x[k..];
      NumberJoin(x[..k], x[k..]);
    }
  }

  lemma PointBytes(x: seq<byte>)
    requires IsPoint(x)
    ensures AllNumber(x)
  {
    if x != [] {
      assert x == [POINT] + x[1..];
      NumberJoin([POINT], x[1..]);
    }
  }

  // ---------- and nothing else

  lemma {:induction false} DigitsAre(x: seq<byte>)
    ensures AllDigits(x[..Digits(x)])
  {
    if x != [] && Digit(x[0]) {
      DigitsAre(x[1..]);
      assert x[..Digits(x)] == [x[0]] + x[1..][..Digits(x[1..])];
    }
  }

  lemma PowerRead(x: seq<byte>)
    requires Exponent(x) == |x|
    ensures IsPower(x)
  {
    if x != [] {
      var k := 1 + Sign(x[1..]);
      DigitsAre(x[k..]);
      assert x[k..][..Digits(x[k..])] == x[k..];
    }
  }

  lemma DecimalRead(x: seq<byte>) returns (b: nat)
    requires Decimal(x) > 0
    ensures b <= Decimal(x) && AllDigits(x[..b]) && IsPoint(x[b..Decimal(x)])
    ensures (b > 0 || Decimal(x) > 1) && (x != [] && Digit(x[0]) ==> b > 0)
  {
    b := Digits(x);
    var d := Decimal(x);
    DigitsAre(x);
    if b < |x| && x[b] == POINT {
      DigitsAre(x[b + 1..]);
      assert x[b..d][1..] == x[b + 1..][..d - b - 1];
    }
  }

  lemma NumeralRead(l: seq<byte>) returns (n: Written)
    requires l != [] && (l[0] == MINUS || Digit(l[0])) && Strtod(l) == |l|
    ensures Proper(n) && Lexical(n) == l
  {
    hide Decimal, Exponent, IsPower, IsPoint, AllDigits;
    var a := Sign(l);
    var x := l[a..];
    var d := Decimal(x);
    var b := DecimalRead(x);
    Sliced(l, a, b, d);
    PowerRead(x[d..]);
    n := Written(a == 1, x[..b], x[b..d], x[d..]);
  }

  lemma Sliced(l: seq<byte>, a: nat, b: nat, d: nat)
    requires a <= 1 && a <= |l| && b <= d <= |l| - a && (a == 1 ==> l[0] == MINUS)
    ensures var x := l[a..];
      l == (if a == 1 then [MINUS] else []) + (x[..b] + (x[b..d] + x[d..])) && l[a + d..] == x[d..]
  {
  }

  /** The numbers that parse_number takes whole: 63 bytes at most, written as above. */
  lemma NumericExactly(l: seq<byte>)
    ensures Numeric(l) <==> |l| <= 63 && exists n :: Proper(n) && Lexical(n) == l
  {
    hide Strtod, Proper, Lexical;
    if Numeric(l) {
      var n := NumeralRead(l);
    }
    if n :| Proper(n) && Lexical(n) == l {
      StrtodWritten(n);
      NumberBytes(n);
    }
  }
}

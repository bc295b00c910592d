/**
 * The way MySQL compares a string with an integer column: it reads the
 * string as a number (white space, sign, digits, fraction, exponent) and
 * compares the numbers.
 */
module SqlCompare {
  import opened Table
  import opened Text

  /** ASCII white space, which MySQL skips in front of a number. */
  predicate IsSpace(c: char)
  {
    c == ' ' || 9 <= c as int <= 13
  }

  /** `s` without its leading white space. */
  function SkipSpaces(s: string): (t: string)
    ensures |t| <= |s| && t == s[|s| - |t|..]
    ensures |t| > 0 ==> !IsSpace(t[0])
  {
    if |s| > 0 && IsSpace(s[0]) then SkipSpaces(s[1..]) else s
  }

  /** The number (-1 if negative) * mantissa * 10^exponent, exactly. */
  datatype Decimal = Decimal(negative: bool, mantissa: nat, exponent: int)

  /** The value of the digits at the head of `u`, read onto `acc`. */
  function ScanNat(u: string, acc: nat): nat
  {
    if |u| > 0 && IsDigit(u[0]) then ScanNat(u[1..], 10 * acc + DigitValue(u[0])) else acc
  }

  /** The exponent "e[sign]digits" at the head of `s`; 0 when there is none. */
  function ExponentPart(s: string): int
  {
    if |s| == 0 || (s[0] != 'e' && s[0] != 'E') then 0
    else
      var t := s[1..];
      var e: int := ScanNat(if |t| > 0 && (t[0] == '-' || t[0] == '+') then t[1..] else t, 0);
      if |t| > 0 && t[0] == '-' then -e else e
  }

  /**
   * The number at the head of `s` as MySQL reads a string it has to compare
   * with a number: white space, an optional sign, then an unsigned number;
   * the rest is ignored, and a string with no digits there reads as 0.
   */
  function ReadDecimal(s: string): Decimal
  {
    ReadSigned(SkipSpaces(s))
  }

  function ReadSigned(t: string): Decimal
  {
    if |t| > 0 && t[0] == '-' then ScanWhole(t[1..], 0).(negative := true)
    else if |t| > 0 && t[0] == '+' then ScanWhole(t[1..], 0)
    else ScanWhole(t, 0)
  }

  /** The digits before the point, read onto `m`; then a fraction or an exponent. */
  function ScanWhole(u: string, m: nat): (d: Decimal)
    ensures !d.negative
  {
    if |u| > 0 && IsDigit(u[0]) then ScanWhole(u[1..], 10 * m + DigitValue(u[0]))
    else if |u| > 0 && u[0] == '.' then ScanFraction(u[1..], m, 0)
    else Decimal(false, m, ExponentPart(u))
  }

  /** The digits after the point, `k` of them read so far; then an exponent. */
  function ScanFraction(u: string, m: nat, k: nat): (d: Decimal)
    ensures !d.negative
  {
    if |u| > 0 && IsDigit(u[0]) then ScanFraction(u[1..], 10 * m + DigitValue(u[0]), k + 1)
    else Decimal(false, m, ExponentPart(u) - k)
  }

  /**
   * mantissa * 10^exponent when that is a whole number, one power of ten at
   * a time: a negative exponent divides by 10 while the last digit is 0.
   */
  function Magnitude(mantissa: nat, exponent: int): Option<nat>
    decreases if exponent >= 0 then exponent else -exponent
  {
    if exponent > 0 then Magnitude(10 * mantissa, exponent - 1)
    else if exponent == 0 then Some(mantissa)
    else if mantissa % 10 == 0 then Magnitude(mantissa / 10, exponent + 1)
    else None
  }

  /** The whole number `d` denotes; None when it has a fractional part. */
  function WholeValue(d: Decimal): Option<int>
  {
    match Magnitude(d.mantissa, d.exponent)
    case None => None
    case Some(m) => Some(if d.negative then -(m as int) else m)
  }

  /**
   * What an integer column is compared with when MySQL meets a string: the
   * number read from the head of the string. None stands for a number that
   * is not whole, which equals no integer.
   */
  function SqlNumber(s: string): Option<int>
  {
    WholeValue(ReadDecimal(s))
  }

  /** Reading the digits `w` onto `m` gives m * 10^|w| + their value. */
  lemma {:induction false} ScanWholeDigits(w: string, rest: string, m: nat)
    requires AllDigits(w)
    ensures ScanWhole(w + rest, m) == ScanWhole(rest, m * Pow10(|w|) + DigitsValue(w))
  {
    if |w| == 0 {
      assert w + rest == rest;
    } else {
      var v, c := w[..|w| - 1], w[|w| - 1];
      assert w + rest == v + ([c] + rest);
      ScanWholeDigits(v, [c] + rest, m);
      assert ([c] + rest)[1..] == rest;
      ShiftDigit(m, Pow10(|v|), DigitsValue(v), DigitValue(c));
    }
  }

  lemma ShiftDigit(m: nat, p: nat, v: nat, c: nat)
    ensures 10 * (m * p + v) + c == m * (10 * p) + (10 * v + c)
  {
  }

  /** A string of digits reads as its value. */
  lemma SqlNumberOfDigits(s: string)
    requires AllDigits(s)
    ensures SqlNumber(s) == Some(DigitsValue(s))
  {
    var n := DigitsValue(s);
    assert ReadDecimal(s) == ScanWhole(s, 0) by {
      assert SkipSpaces(s) == s;
    }
    assert ScanWhole(s, 0) == ScanWhole([], n) by {
      ScanWholeDigits(s, [], 0);
      assert s + [] == s && 0 * Pow10(|s|) + n == n;
    }
    assert ScanWhole([], n) == Decimal(false, n, 0);
    assert Magnitude(n, 0) == Some(n);
  }

  /** A string that starts with no digit, sign, point or space reads as 0. */
  lemma SqlNumberOfLetter(s: string)
    requires |s| > 0 && !IsDigit(s[0]) && !IsSpace(s[0]) && s[0] !in "+-."
    ensures SqlNumber(s) == Some(0)
  {
    assert SkipSpaces(s) == s && ReadSigned(s) == ScanWhole(s, 0);
    assert ReadDecimal(s).mantissa == 0;
    ZeroMagnitude(ReadDecimal(s).exponent);
  }

  lemma {:induction false} ZeroMagnitude(exponent: int)
    ensures Magnitude(0, exponent) == Some(0)
    decreases if exponent >= 0 then exponent else -exponent
  {
    if exponent > 0 {
      ZeroMagnitude(exponent - 1);
    } else if exponent < 0 {
      ZeroMagnitude(exponent + 1);
    }
  }

  /** The decimal text of an id reads back as that id. */
  lemma SqlNumberOfId(n: nat)
    ensures SqlNumber(NatToString(n)) == Some(n)
  {
    NatToStringRoundTrip(n);
    SqlNumberOfDigits(NatToString(n));
  }

  /** White space in front of a number does not change it. */
  lemma SqlNumberSkipsSpace(c: char, s: string)
    requires IsSpace(c)
    ensures SqlNumber([c] + s) == SqlNumber(s)
  {
    assert ([c] + s)[1..] == s;
    assert SkipSpaces([c] + s) == SkipSpaces(s);
  }

  /** A sign in front of digits: '+' keeps the number, '-' negates it. */
  lemma SqlNumberSign(s: string)
    requires |s| > 0 && IsDigit(s[0])
    ensures SqlNumber(['+'] + s) == SqlNumber(s)
    ensures SqlNumber(['-'] + s).Some? == SqlNumber(s).Some?
    ensures SqlNumber(s).Some? ==> SqlNumber(['-'] + s) == Some(-SqlNumber(s).value)
  {
    var d := ScanWhole(s, 0);
    assert ReadDecimal(s) == d by {
      assert SkipSpaces(s) == s;
    }
    assert ReadDecimal(['+'] + s) == d by {
      assert SkipSpaces(['+'] + s) == ['+'] + s;
      assert (['+'] + s)[1..] == s;
    }
    assert ReadDecimal(['-'] + s) == d.(negative := true) by {
      assert SkipSpaces(['-'] + s) == ['-'] + s;
      assert (['-'] + s)[1..] == s;
    }
    assert SqlNumber(s) == WholeValue(d);
    assert SqlNumber(['-'] + s) == WholeValue(d.(negative := true));
    WholeValueNegated(d);
  }

  lemma WholeValueNegated(d: Decimal)
    requires !d.negative
    ensures WholeValue(d.(negative := true)).Some? == WholeValue(d).Some?
    ensures WholeValue(d).Some? ==> WholeValue(d.(negative := true)) == Some(-WholeValue(d).value)
  {
  }

  /**
   * " 7" and "+7" read as 7, "-3" as -3, "1e1" as 10; "7.5" is no whole
   * number; "7abc" reads as 7 and "R001" as 0.
   */
  lemma SqlNumberExamples()
    ensures SqlNumber(" 7") == Some(7)
    ensures SqlNumber("+7") == Some(7)
    ensures SqlNumber("-3") == Some(-3)
    ensures SqlNumber("1e1") == Some(10)
    ensures SqlNumber("7.5") == None
    ensures SqlNumber("7abc") == Some(7)
    ensures SqlNumber("R001") == Some(0)
  {
    SpaceExample();
    SignExamples();
    ExponentExample();
    FractionExample();
    TrailingTextExample();
  }

  lemma DigitExamples()
    ensures SqlNumber("7") == Some(7) && SqlNumber("3") == Some(3)
  {
    assert DigitsValue("7") == 7 && DigitsValue("3") == 3;
    SqlNumberOfDigits("7");
    SqlNumberOfDigits("3");
  }

  lemma SpaceExample()
    ensures SqlNumber(" 7") == Some(7)
  {
    DigitExamples();
    assert " 7" == [' '] + "7";
    SqlNumberSkipsSpace(' ', "7");
  }

  lemma SignExamples()
    ensures SqlNumber("+7") == Some(7) && SqlNumber("-3") == Some(-3)
  {
    DigitExamples();
    assert "+7" == ['+'] + "7" && "-3" == ['-'] + "3";
    SqlNumberSign("7");
    SqlNumberSign("3");
  }

  lemma ExponentExample()
    ensures SqlNumber("1e1") == Some(10)
  {
    var s := "1e1";
    assert SkipSpaces(s) == s && ReadSigned(s) == ScanWhole(s, 0);
    assert s[1..] == "e1" && "e1"[1..] == "1" && "1"[1..] == [];
    assert ScanWhole(s, 0) == Decimal(false, 1, 1);
  }

  lemma FractionExample()
    ensures SqlNumber("7.5") == None
  {
    var s := "7.5";
    assert SkipSpaces(s) == s && ReadSigned(s) == ScanWhole(s, 0);
    assert s[1..] == ".5" && ".5"[1..] == "5" && "5"[1..] == [];
    assert ScanWhole(".5", 7) == ScanFraction("5", 7, 0);
    assert ScanFraction("5", 7, 0) == Decimal(false, 75, -1);
  }

  lemma TrailingTextExample()
    ensures SqlNumber("7abc") == Some(7)
    ensures SqlNumber("R001") == Some(0)
  {
    var s := "7abc";
    assert ReadDecimal(s) == ScanWhole(s, 0) by {
      assert SkipSpaces(s) == s;
    }
    assert ScanWhole(s, 0) == ScanWhole("abc", 7) by {
      assert s[1..] == "abc";
    }
    assert ExponentPart("abc") == 0;
    assert ScanWhole("abc", 7) == Decimal(false, 7, 0);
    SqlNumberOfLetter("R001");
  }
}

/**
 * Decimal text: `Number.prototype.toString()` on a non-negative integer,
 * `String.prototype.padStart(width, '0')`, reading digits back.
 */
module Text {

  predicate IsDigit(c: char)
  {
    '0' <= c <= '9'
  }

  predicate AllDigits(s: string)
  {
    forall i :: 0 <= i < |s| ==> IsDigit(s[i])
  }

  function DigitChar(d: nat): (c: char)
    requires d < 10
    ensures IsDigit(c)
  {
    (d + '0' as int) as char
  }

  function DigitValue(c: char): (d: nat)
    requires IsDigit(c)
    ensures d < 10
  {
    (c as int) - ('0' as int)
  }

  function Pow10(k: nat): (p: nat)
    ensures p >= 1
  {
    if k == 0 then 1 else 10 * Pow10(k - 1)
  }

  /** The decimal text of `n`, without leading zeros. */
  function NatToString(n: nat): (s: string)
    ensures |s| >= 1 && AllDigits(s)
    ensures n >= 10 ==> |s| >= 2
  {
    if n < 10 then [DigitChar(n)] else NatToString(n / 10) + [DigitChar(n % 10)]
  }

  /** The number a string of decimal digits denotes (leading zeros allowed). */
  function DigitsValue(s: string): nat
    requires AllDigits(s)
  {
    if |s| == 0 then 0 else 10 * DigitsValue(s[..|s| - 1]) + DigitValue(s[|s| - 1])
  }

  /** `s.padStart(width, '0')`. */
  function PadStart(s: string, width: nat): (r: string)
    ensures |r| == if |s| >= width then |s| else width
  {
    if |s| >= width then s else ['0'] + PadStart(s, width - 1)
  }

  /** The padded string is zeros followed by the original string. */
  lemma {:induction false} PadStartShape(s: string, width: nat)
    ensures var r := PadStart(s, width);
      r[|r| - |s|..] == s && forall i :: 0 <= i < |r| - |s| ==> r[i] == '0'
  {
    var r := PadStart(s, width);
    if |s| < width {
      PadStartShape(s, width - 1);
      var r' := PadStart(s, width - 1);
      assert r == ['0'] + r' && |r'| == width - 1;
      assert r[|r| - |s|..] == r'[|r'| - |s|..];
      forall i | 0 <= i < |r| - |s|
        ensures r[i] == '0'
      {
        if i > 0 {
          assert r[i] == r'[i - 1];
        }
      }
    } else {
      assert r == s && r[0..] == s;
    }
  }

  /** Reading back the text of `n` gives `n`. */
  lemma {:induction false} NatToStringRoundTrip(n: nat)
    ensures DigitsValue(NatToString(n)) == n
  {
    var s := NatToString(n);
    if n >= 10 {
      NatToStringRoundTrip(n / 10);
      assert s[..|s| - 1] == NatToString(n / 10);
    }
  }

  /** The text of `n` fits in `k` characters exactly when n < 10^k. */
  lemma {:induction false} NatToStringLength(n: nat, k: nat)
    requires k >= 1
    ensures |NatToString(n)| <= k <==> n < Pow10(k)
  {
    if n >= 10 {
      if k == 1 {
        assert Pow10(1) == 10;
      } else {
        NatToStringLength(n / 10, k - 1);
        assert Pow10(k) == 10 * Pow10(k - 1);
        assert n < Pow10(k) <==> n / 10 < Pow10(k - 1);
      }
    } else {
      PowAtLeastTen(k);
    }
  }

  lemma {:induction false} PowAtLeastTen(k: nat)
    requires k >= 1
    ensures Pow10(k) >= 10
  {
    if k > 1 {
      PowAtLeastTen(k - 1);
    }
  }

  /** Leading zeros do not change the value of a digit string. */
  lemma {:induction false} LeadingZerosValue(z: string, s: string)
    requires forall i :: 0 <= i < |z| ==> z[i] == '0'
    requires AllDigits(s)
    ensures AllDigits(z + s)
    ensures DigitsValue(z + s) == DigitsValue(s)
  {
    if |s| == 0 {
      assert z + s == z;
      ZerosValue(z);
    } else {
      var t := z + s;
      assert t[..|t| - 1] == z + s[..|s| - 1];
      LeadingZerosValue(z, s[..|s| - 1]);
    }
  }

  lemma {:induction false} ZerosValue(z: string)
    requires forall i :: 0 <= i < |z| ==> z[i] == '0'
    ensures AllDigits(z) && DigitsValue(z) == 0
  {
    if |z| > 0 {
      ZerosValue(z[..|z| - 1]);
    }
  }

  /** Zero-padding keeps a digit string's value. */
  lemma PadStartValue(s: string, width: nat)
    requires AllDigits(s)
    ensures AllDigits(PadStart(s, width))
    ensures DigitsValue(PadStart(s, width)) == DigitsValue(s)
  {
    var r := PadStart(s, width);
    PadStartShape(s, width);
    var z := r[..|r| - |s|];
    assert r == z + s;
    LeadingZerosValue(z, s);
  }

  /**
   * A record number: a prefix letter, then the clock reading and a random
   * draw written out in decimal one after the other ('B' + Date.now() + draw).
   */
  function SerialNo(prefix: char, now: nat, draw: nat): (s: string)
    ensures |s| >= 3 && s[0] == prefix && AllDigits(s[1..])
  {
    [prefix] + NatToString(now) + NatToString(draw)
  }

  /**
   * Record numbers are not unique: the clock reading and the draw are written
   * without a separator, so two different pairs can give the same number.
   */
  lemma SerialNoCollides()
    ensures SerialNo('B', 12, 3) == SerialNo('B', 1, 23)
  {
    assert NatToString(12) == NatToString(1) + [DigitChar(2)];
    assert NatToString(23) == NatToString(2) + [DigitChar(3)];
  }
}

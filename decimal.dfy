/** Decimal rendering and parsing of non-negative integers, as the search uses
    Python's `str(num)` and `int(digits[a:b])`: strings of the characters
    '0'..'9', most significant digit first. */
module Decimal {

  predicate IsDigit(c: char) {
    '0' <= c <= '9'
  }

  predicate IsDigits(s: string) {
    forall i :: 0 <= i < |s| ==> IsDigit(s[i])
  }

  function DigitValue(c: char): (d: nat)
    requires IsDigit(c)
    ensures d < 10
  {
    c as int - '0' as int
  }

  function DigitChar(d: nat): (c: char)
    requires d < 10
    ensures IsDigit(c) && DigitValue(c) == d
  {
    ('0' as int + d) as char
  }

  function Pow10(e: nat): (p: nat)
    ensures p >= 1
  {
    if e == 0 then 1 else 10 * Pow10(e - 1)
  }

  /** `int(s)` on a string of decimal digits: leading zeros collapse, so
      "055" is 55. The empty string, on which Python raises, never reaches
      this function from the searches; it is given the value 0. */
  function ParseDecimal(s: string): (n: nat)
    requires IsDigits(s)
    ensures n < Pow10(|s|)
  {
    if s == [] then 0 else ParseDecimal(s[..|s| - 1]) * 10 + DigitValue(s[|s| - 1])
  }

  /** `str(n)` for a non-negative integer: no sign, no leading zero, and
      "0" for zero. */
  function DecimalString(n: nat): (s: string)
    ensures IsDigits(s) && |s| >= 1
    ensures s[0] == '0' <==> n == 0
  {
    if n < 10 then [DigitChar(n)] else DecimalString(n / 10) + [DigitChar(n % 10)]
  }

  /** `int(str(n)) == n`. */
  lemma {:induction false} ParseDecimalString(n: nat)
    ensures ParseDecimal(DecimalString(n)) == n
  {
    if n >= 10 {
      var s := DecimalString(n);
      assert s[..|s| - 1] == DecimalString(n / 10);
      ParseDecimalString(n / 10);
    }
  }

  lemma ShiftAdd(a: int, p: int, b: int, d: int)
    ensures (a * p + b) * 10 + d == a * (p * 10) + (b * 10 + d)
  {
    assert (a * p + b) * 10 == (a * p) * 10 + b * 10;
    assert (a * p) * 10 == a * (p * 10);
  }

  lemma DigitsConcat(s: string, t: string)
    requires IsDigits(s) && IsDigits(t)
    ensures IsDigits(s + t)
  {
    forall i | 0 <= i < |s + t| ensures IsDigit((s + t)[i]) {
      if i < |s| { assert (s + t)[i] == s[i]; } else { assert (s + t)[i] == t[i - |s|]; }
    }
  }

  /** A digit string whose first digit is not '0' is worth at least
      10^(length-1). */
  lemma {:induction false} ParseLeadingBound(s: string)
    requires IsDigits(s) && |s| >= 1 && s[0] != '0'
    ensures ParseDecimal(s) >= Pow10(|s| - 1)
  {
    if |s| > 1 {
      var s' := s[..|s| - 1];
      assert s'[0] == s[0];
      ParseLeadingBound(s');
    } else {
      assert DigitValue(s[0]) >= 1;
    }
  }

  /** `str(int(s)) == s` for a digit string without a leading zero. */
  lemma {:induction false} DecimalStringParse(s: string)
    requires IsDigits(s) && |s| >= 1 && s[0] != '0'
    ensures DecimalString(ParseDecimal(s)) == s
  {
    var n := ParseDecimal(s);
    if |s| == 1 {
      assert DigitValue(s[0]) >= 1;
      assert DigitChar(DigitValue(s[0])) == s[0];
    } else {
      var s' := s[..|s| - 1];
      assert s'[0] == s[0];
      ParseLeadingBound(s');
      assert n >= 10;
      assert n / 10 == ParseDecimal(s') && n % 10 == DigitValue(s[|s| - 1]);
      DecimalStringParse(s');
      assert DigitChar(DigitValue(s[|s| - 1])) == s[|s| - 1];
      assert s == s' + [s[|s| - 1]];
    }
  }

  /** The length of `str(n)` is the number of decimal digits of n. */
  lemma DigitCount(n: nat)
    ensures n < Pow10(|DecimalString(n)|)
    ensures n >= 1 ==> n >= Pow10(|DecimalString(n)| - 1)
  {
    ParseDecimalString(n);
    if n >= 1 { ParseLeadingBound(DecimalString(n)); }
  }

  /** `len(str(n)) > 3` exactly when n is at least 1000. */
  lemma AtMostThreeDigits(n: nat)
    ensures |DecimalString(n)| <= 3 <==> n < 1000
  {
    DigitCount(n);
    var k := |DecimalString(n)|;
    if k <= 3 {
      assert Pow10(k) <= 1000 by { PowMonotone(k, 3); }
    } else {
      assert Pow10(k - 1) >= 1000 by { PowMonotone(3, k - 1); }
    }
  }

  lemma {:induction false} PowMonotone(a: nat, b: nat)
    requires a <= b
    ensures Pow10(a) <= Pow10(b)
  {
    if a < b { PowMonotone(a, b - 1); }
  }
}

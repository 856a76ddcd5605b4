/**
 Base-10 rendering of integers, as `strconv.FormatInt(v, 10)` produces it:
 an optional '-' followed by the digits of the magnitude, with no leading
 zeros ("0" for zero, never "-0" or "+5").

 `ParseInt` is the partner used to state what `FormatInt` means: it reads a
 canonical signed numeral back, and the two are proved to be inverse on their
 whole domains.
 */
module Decimal {

  predicate IsDigit(c: char) {
    '0' <= c <= '9'
  }

  function DigitValue(c: char): (d: nat)
    requires IsDigit(c)
    ensures d < 10
  {
    c as int - '0' as int
  }

  function DigitChar(d: nat): (c: char)
    requires d < 10
    ensures IsDigit(c) && DigitValue(c) == d
  {
    ('0' as int + d) as char
  }

  predicate AllDigits(s: string) {
    forall k :: 0 <= k < |s| ==> IsDigit(s[k])
  }

  /** A canonical unsigned numeral: at least one digit, and no leading zero unless it is "0". */
  predicate IsNumeral(s: string) {
    |s| >= 1 && AllDigits(s) && (s[0] == '0' ==> |s| == 1)
  }

  /** A canonical signed numeral: a numeral, or '-' followed by a numeral other than "0". */
  predicate IsSignedNumeral(s: string) {
    if |s| >= 1 && s[0] == '-' then IsNumeral(s[1..]) && s[1..] != "0"
    else IsNumeral(s)
  }

  /** The value of a digit string, most significant digit first. */
  function ParseNat(s: string): nat
    requires AllDigits(s)
    decreases |s|
  {
    if s == [] then 0 else 10 * ParseNat(s[..|s| - 1]) + DigitValue(s[|s| - 1])
  }

  function ParseInt(s: string): int
    requires IsSignedNumeral(s)
  {
    if s[0] == '-' then -(ParseNat(s[1..]) as int) else ParseNat(s)
  }

  /** The digits of a magnitude, most significant first. */
  function Digits(n: nat): (r: string)
    ensures IsNumeral(r)
    ensures ParseNat(r) == n
    decreases n
  {
    if n < 10 then [DigitChar(n)]
    else
      var p := Digits(n / 10);
      var r := p + [DigitChar(n % 10)];
      assert r[..|r| - 1] == p;
      r
  }

  /** `strconv.FormatInt(n, 10)`. */
  function FormatInt(n: int): (r: string)
    ensures IsSignedNumeral(r)
    ensures ParseInt(r) == n
    ensures r[0] == '-' <==> n < 0
  {
    if n < 0 then
      var r := "-" + Digits(-n);
      assert r[1..] == Digits(-n);
      r
    else Digits(n)
  }

  /** Distinct integers are rendered as distinct strings. */
  lemma FormatIntInjective(a: int, b: int)
    ensures FormatInt(a) == FormatInt(b) ==> a == b
  {
  }

  /** A numeral whose first digit is not zero denotes a positive number. */
  lemma {:induction false} ParseNatPositive(s: string)
    requires IsNumeral(s) && s[0] != '0'
    ensures ParseNat(s) > 0
    decreases |s|
  {
    if |s| > 1 {
      var p := s[..|s| - 1];
      assert p[0] == s[0];
      ParseNatPositive(p);
    }
  }

  /** Every canonical numeral is the rendering of its own value. */
  lemma {:induction false} DigitsOfParseNat(s: string)
    requires IsNumeral(s)
    ensures Digits(ParseNat(s)) == s
    decreases |s|
  {
    if |s| > 1 {
      var p := s[..|s| - 1];
      var d := DigitValue(s[|s| - 1]);
      assert p[0] == s[0];
      ParseNatPositive(p);
      var n := ParseNat(s);
      assert n == 10 * ParseNat(p) + d;
      assert n / 10 == ParseNat(p) && n % 10 == d;
      DigitsOfParseNat(p);
      assert DigitChar(d) == s[|s| - 1];
      assert s == p + [s[|s| - 1]];
    } else {
      assert DigitChar(DigitValue(s[0])) == s[0];
    }
  }

  /** Every canonical signed numeral is the rendering of its own value, so the
      strings `FormatInt` produces are exactly the canonical signed numerals. */
  lemma FormatIntOfParseInt(s: string)
    requires IsSignedNumeral(s)
    ensures FormatInt(ParseInt(s)) == s
  {
    if s[0] == '-' {
      var m := s[1..];
      DigitsOfParseNat(m);
      assert s == "-" + m;
    } else {
      DigitsOfParseNat(s);
    }
  }
}

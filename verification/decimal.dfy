/** Python's `str` of an integer: optional minus sign, then decimal digits
    without leading zeros; and its inverse. */
module Decimal {

  predicate IsDigit(c: char) {
    '0' <= c <= '9'
  }

  predicate AllDigits(s: string) {
    forall i :: 0 <= i < |s| ==> IsDigit(s[i])
  }

  function DigitChar(d: nat): (c: char)
    requires d < 10
    ensures IsDigit(c)
  {
    (48 + d) as char
  }

  function DigitValue(c: char): (d: nat)
    requires IsDigit(c)
    ensures d < 10
  {
    (c as int) - 48
  }

  /** A digit string in canonical form: non-empty, and no leading zero
      unless it is the single digit `0`. */
  predicate NoLeadingZero(d: string) {
    |d| >= 1 && AllDigits(d) && (d[0] != '0' || |d| == 1)
  }

  /** The decimal digits of a natural number. */
  function NatToString(n: nat): (s: string)
    ensures NoLeadingZero(s)
    ensures s == "0" <==> n == 0
    decreases n
  {
    if n < 10 then [DigitChar(n)] else NatToString(n / 10) + [DigitChar(n % 10)]
  }

  /** The value of a string of decimal digits. */
  function DigitsValue(s: string): nat
    requires AllDigits(s)
  {
    if |s| == 0 then 0 else DigitsValue(s[..|s| - 1]) * 10 + DigitValue(s[|s| - 1])
  }

  lemma {:induction false} NatRoundTrip(n: nat)
    ensures DigitsValue(NatToString(n)) == n
    decreases n
  {
    if n >= 10 {
      var s := NatToString(n / 10);
      NatRoundTrip(n / 10);
      var t := s + [DigitChar(n % 10)];
      assert t[..|t| - 1] == s;
    }
  }

  /** A string `int` accepts: an optional minus sign, then decimal digits. */
  predicate IsIntLiteral(s: string) {
    if |s| > 0 && s[0] == '-' then |s| > 1 && AllDigits(s[1..]) else |s| > 0 && AllDigits(s)
  }

  /** A string `str` of an int can produce: no leading zeros, and no `-0`. */
  predicate IsCanonicalInt(s: string) {
    if |s| > 0 && s[0] == '-' then NoLeadingZero(s[1..]) && s[1..] != "0" else NoLeadingZero(s)
  }

  /** Reading an int back from its decimal form. */
  function ParseInt(s: string): int
    requires IsIntLiteral(s)
  {
    if s[0] == '-' then 0 - DigitsValue(s[1..]) as int else DigitsValue(s)
  }

  /** `str(i)` for an int `i`: canonical, and it reads back as `i`. */
  function IntToString(i: int): (s: string)
    ensures IsIntLiteral(s) && IsCanonicalInt(s)
    ensures ParseInt(s) == i
  {
    if i < 0 then
      var digits := NatToString(-i);
      NatRoundTrip(-i);
      assert ("-" + digits)[1..] == digits;
      "-" + digits
    else
      NatRoundTrip(i);
      NatToString(i)
  }

  /** A canonical digit string with a non-zero first digit has a positive value. */
  lemma {:induction false} LeadingDigitPositive(d: string)
    requires NoLeadingZero(d) && d[0] != '0'
    ensures DigitsValue(d) >= 1
    decreases |d|
  {
    if |d| > 1 {
      var p := d[..|d| - 1];
      LeadingDigitPositive(p);
    }
  }

  /** A canonical digit string is the decimal form of its value. */
  lemma {:induction false} CanonicalDigitsRoundTrip(d: string)
    requires NoLeadingZero(d)
    ensures NatToString(DigitsValue(d)) == d
    decreases |d|
  {
    if |d| > 1 {
      var p := d[..|d| - 1];
      assert NoLeadingZero(p);
      LeadingDigitPositive(p);
      CanonicalDigitsRoundTrip(p);
      assert d == p + [d[|d| - 1]];
    }
  }

  /** Every canonical literal is `str` of the int it reads as: together with
      `IntToString`'s contract, `str` and `int` are inverse bijections
      between ints and canonical literals. */
  lemma CanonicalIntRoundTrip(s: string)
    requires IsCanonicalInt(s)
    ensures IsIntLiteral(s)
    ensures IntToString(ParseInt(s)) == s
  {
    if s[0] == '-' {
      var d := s[1..];
      LeadingDigitPositive(d);
      CanonicalDigitsRoundTrip(d);
      assert s == "-" + d;
    } else {
      CanonicalDigitsRoundTrip(s);
    }
  }
}

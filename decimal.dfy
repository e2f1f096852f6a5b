/** Decimal rendering of a cell's neighbour count, the label a shown safe cell displays. */
module Decimal {

  /** True iff every character of `s` is one of '0'..'9'. */
  predicate IsDigits(s: string)
  {
    forall i :: 0 <= i < |s| ==> '0' <= s[i] <= '9'
  }

  /** A canonical decimal numeral: non-empty, digits only, no leading zero unless it is "0". */
  predicate IsCanonical(s: string)
  {
    |s| >= 1 && IsDigits(s) && (|s| > 1 ==> s[0] != '0')
  }

  function DigitChar(d: nat): (c: char)
    requires d < 10
    ensures '0' <= c <= '9'
    ensures (c as int) - ('0' as int) == d
  {
    (('0' as int) + d) as char
  }

  /** The value a string of decimal digits denotes, read most significant digit first. */
  function DecimalValue(s: string): int
  {
    if s == [] then 0
    else 10 * DecimalValue(s[..|s| - 1]) + ((s[|s| - 1] as int) - ('0' as int))
  }

  /** The decimal form of a natural number, as Int32.ToString gives it for non-negative values. */
  function NatToString(n: nat): (s: string)
    ensures IsCanonical(s)
    ensures |s| == 1 <==> n < 10
    ensures DecimalValue(s) == n
  {
    if n < 10 then [DigitChar(n)]
    else
      var front := NatToString(n / 10);
      assert (front + [DigitChar(n % 10)])[..|front|] == front;
      front + [DigitChar(n % 10)]
  }

  /** A canonical numeral whose first digit is not '0' denotes at least 1. */
  lemma {:induction false} CanonicalPositive(s: string)
    requires IsCanonical(s) && s[0] != '0'
    ensures DecimalValue(s) >= 1
  {
    if |s| > 1 {
      var t := s[..|s| - 1];
      assert t[0] == s[0];
      assert IsCanonical(t);
      CanonicalPositive(t);
    }
  }

  lemma SplitLastDigit(v: int, d: int)
    requires 0 <= d < 10
    ensures (10 * v + d) / 10 == v && (10 * v + d) % 10 == d
  {
  }

  lemma DigitCharOf(c: char)
    requires '0' <= c <= '9'
    ensures DigitChar((c as int) - ('0' as int)) == c
  {
  }

  /** Formatting inverts parsing on canonical numerals (NatToString's ensures give the other way). */
  lemma {:induction false} FormatParsed(s: string)
    requires IsCanonical(s)
    ensures DecimalValue(s) >= 0
    ensures NatToString(DecimalValue(s)) == s
  {
    if |s| > 1 {
      var t, c := s[..|s| - 1], s[|s| - 1];
      var d := (c as int) - ('0' as int);
      assert t[0] == s[0];
      assert IsCanonical(t);
      FormatParsed(t);
      CanonicalPositive(t);
      var v := DecimalValue(t);
      assert DecimalValue(s) == 10 * v + d;
      SplitLastDigit(v, d);
      DigitCharOf(c);
      assert NatToString(10 * v + d) == NatToString(v) + [c];
      assert s == t + [c];
    }
  }
}

/**
 * Decimal text of integers, as produced by a cast of an Int64 column to
 * Utf8, and the strict parse of text back to an Int64.
 */
module Decimal {
  import opened Wrappers

  predicate IsDigit(c: char) { '0' <= c <= '9' }

  predicate AllDigits(s: string) { forall i :: 0 <= i < |s| ==> IsDigit(s[i]) }

  function DigitChar(d: nat): (c: char)
    requires d < 10
    ensures IsDigit(c) && c as int - '0' as int == d
  {
    ('0' as int + d) as char
  }

  function DigitValue(c: char): (d: nat)
    requires IsDigit(c)
    ensures d < 10 && DigitChar(d) == c
  {
    c as int - '0' as int
  }

  /** Shortest decimal text of a natural number (no leading zeros). */
  function NatText(n: nat): (s: string)
    ensures 0 < |s| && AllDigits(s)
    ensures n < 10 <==> |s| == 1
    decreases n
  {
    if n < 10 then [DigitChar(n)] else NatText(n / 10) + [DigitChar(n % 10)]
  }

  /** The text of an integer: a minus sign for negative numbers, then the digits. */
  function IntText(n: int): string
  {
    if n < 0 then "-" + NatText(-n) else NatText(n)
  }

  /** Value of a digit string read most significant digit first. */
  function ParseDigits(s: string): nat
    requires AllDigits(s)
    decreases |s|
  {
    if s == [] then 0 else 10 * ParseDigits(s[..|s| - 1]) + DigitValue(s[|s| - 1])
  }

  /**
   * Strict cast of text to an integer: an optional minus sign followed by at
   * least one digit; anything else fails.
   */
  function ParseInt(s: string): Option<int>
  {
    if s != [] && AllDigits(s) then Some(ParseDigits(s) as int)
    else if |s| > 1 && s[0] == '-' && AllDigits(s[1..]) then Some(-(ParseDigits(s[1..]) as int))
    else None
  }

  lemma {:induction false} ParseNatText(n: nat)
    ensures ParseDigits(NatText(n)) == n
    decreases n
  {
    if n >= 10 {
      var s := NatText(n);
      assert s[..|s| - 1] == NatText(n / 10);
      ParseNatText(n / 10);
    }
  }

  /** Casting an integer to text and back gives the integer again. */
  lemma ParseIntText(n: int)
    ensures ParseInt(IntText(n)) == Some(n)
  {
    if n < 0 {
      ParseNegativeText(-n);
    } else {
      ParsePositiveText(n);
    }
  }

  lemma ParsePositiveText(m: nat)
    ensures ParseInt(NatText(m)) == Some(m)
  {
    ParseNatText(m);
  }

  lemma ParseNegativeText(m: nat)
    ensures ParseInt("-" + NatText(m)) == Some(-(m as int))
  {
    var d := NatText(m);
    var s := "-" + d;
    assert s[1..] == d;
    assert !IsDigit(s[0]);
    ParseNatText(m);
  }
}

/** Decimal text and the integers it denotes: Python's `int(s)` on a string of
    digits and `str(n)` on an integer. */
module Decimal {

  predicate IsDigit(c: char) {
    '0' <= c <= '9'
  }

  /** A non-empty string of ASCII digits: the strings `int` parses here. */
  predicate IsDecimal(s: string) {
    |s| > 0 && forall c <- s :: IsDigit(c)
  }

  /** No superfluous leading zero: the form `str` produces for a natural number. */
  predicate IsCanonical(s: string) {
    IsDecimal(s) && (|s| == 1 || s[0] != '0')
  }

  function DigitValue(c: char): (d: nat)
    requires IsDigit(c)
    ensures d < 10
  {
    c as int - '0' as int
  }

  function DigitChar(d: nat): (c: char)
    requires d < 10
    ensures IsDigit(c) && DigitValue(c) == d
  {
    ('0' as int + d) as char
  }

  /** The value of a digit string, most significant digit first (`int(s)`). */
  function ParseDecimal(s: string): (n: nat)
    requires IsDecimal(s)
    ensures s[0] != '0' ==> n > 0
    ensures |s| >= 2 && s[0] != '0' ==> n >= 10
  {
    if |s| == 1 then DigitValue(s[0])
    else 10 * ParseDecimal(s[..|s| - 1]) + DigitValue(s[|s| - 1])
  }

  /** The decimal form of a natural number (`str(n)` for `n >= 0`). */
  function NatToString(n: nat): (s: string)
    ensures IsCanonical(s)
  {
    if n < 10 then [DigitChar(n)]
    else
      var prefix := NatToString(n / 10);
      assert (prefix + [DigitChar(n % 10)])[0] == prefix[0];
      prefix + [DigitChar(n % 10)]
  }

  /** The decimal form of an integer, with a leading '-' when negative (`str(i)`). */
  function IntToString(i: int): (s: string)
    ensures |s| > 0
    ensures i >= 0 <==> IsDigit(s[0])
    ensures i >= 0 ==> IsCanonical(s) && ParseDecimal(s) == i
    ensures i < 0 ==> s[0] == '-' && IsCanonical(s[1..]) && ParseDecimal(s[1..]) == -i
  {
    if i < 0 then
      var digits := NatToString(-i);
      ParsePrinted(-i);
      assert ("-" + digits)[1..] == digits;
      "-" + digits
    else
      ParsePrinted(i);
      NatToString(i)
  }

  /** Parsing undoes printing. */
  lemma {:induction false} ParsePrinted(n: nat)
    ensures ParseDecimal(NatToString(n)) == n
  {
    if n >= 10 {
      var prefix := NatToString(n / 10);
      var s := prefix + [DigitChar(n % 10)];
      assert s[..|s| - 1] == prefix;
      ParsePrinted(n / 10);
    }
  }

  /** Printing undoes parsing, for strings without a superfluous leading zero. */
  lemma {:induction false} PrintParsed(s: string)
    requires IsCanonical(s)
    ensures NatToString(ParseDecimal(s)) == s
  {
    if |s| >= 2 {
      var prefix := s[..|s| - 1];
      assert prefix[0] == s[0];
      assert IsCanonical(prefix);
      PrintParsed(prefix);
      var n := ParseDecimal(s);
      assert n / 10 == ParseDecimal(prefix);
      assert n % 10 == DigitValue(s[|s| - 1]);
      assert s == prefix + [s[|s| - 1]];
    }
  }

  /** Distinct integers print differently. */
  lemma IntToStringInjective(a: int, b: int)
    requires IntToString(a) == IntToString(b)
    ensures a == b
  {
    var s := IntToString(a);
    if a < 0 && b < 0 {
      assert ParseDecimal(s[1..]) == -a && ParseDecimal(s[1..]) == -b;
    } else if a >= 0 && b >= 0 {
      assert ParseDecimal(s) == a && ParseDecimal(s) == b;
    }
  }
}

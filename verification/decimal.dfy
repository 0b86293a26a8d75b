/**
 * The `%d` conversion of Python's string formatting, restricted to what the
 * probe uses: an integer rendered in base ten, with a leading '-' when it is
 * negative. `Parse` is its inverse, so a message built with `Format` can be
 * shown to carry exactly the number it was built from.
 */
module Decimal {

  predicate IsDigit(c: char) {
    '0' <= c <= '9'
  }

  function DigitChar(d: nat): (c: char)
    requires d < 10
    ensures IsDigit(c) && c as int - '0' as int == d
  {
    ['0', '1', '2', '3', '4', '5', '6', '7', '8', '9'][d]
  }

  function DigitValue(c: char): (d: nat)
    requires IsDigit(c)
    ensures d < 10 && DigitChar(d) == c
  {
    c as int - '0' as int
  }

  /** The base-ten digits of `n`, most significant first, with no leading zero. */
  function Digits(n: nat): (s: string)
    ensures |s| > 0
    ensures forall i :: 0 <= i < |s| ==> IsDigit(s[i])
    ensures s[0] == '0' ==> n == 0
    decreases n
  {
    if n < 10 then [DigitChar(n)] else Digits(n / 10) + [DigitChar(n % 10)]
  }

  /** `"%d" % n`: a '-' sign for negative numbers, then the digits of |n|. */
  function Format(n: int): (s: string)
    ensures |s| > 0
    ensures (s[0] == '-') == (n < 0)
    ensures forall i :: (if n < 0 then 1 else 0) <= i < |s| ==> IsDigit(s[i])
  {
    if n < 0 then "-" + Digits(-n) else Digits(n)
  }

  /** The value of a string of digits (the empty string reads as 0). */
  function ParseDigits(s: string): (n: nat)
    requires forall i :: 0 <= i < |s| ==> IsDigit(s[i])
    decreases |s|
  {
    if s == [] then 0 else ParseDigits(s[..|s| - 1]) * 10 + DigitValue(s[|s| - 1])
  }

  /** The value of an optional '-' followed by digits. */
  function Parse(s: string): int
    requires |s| > 0
    requires forall i :: (if s[0] == '-' then 1 else 0) <= i < |s| ==> IsDigit(s[i])
  {
    if s[0] == '-' then 0 - ParseDigits(s[1..]) else ParseDigits(s)
  }

  lemma {:induction false} ParseDigitsOfDigits(n: nat)
    ensures ParseDigits(Digits(n)) == n
    decreases n
  {
    var s := Digits(n);
    if n < 10 {
      assert s[..|s| - 1] == [];
    } else {
      ParseDigitsOfDigits(n / 10);
      assert s[..|s| - 1] == Digits(n / 10);
      assert s[|s| - 1] == DigitChar(n % 10);
    }
  }

  /** A '-' followed by digits reads as the negated value of the digits. */
  lemma ParseNegative(d: string)
    requires |d| > 0 && forall i :: 0 <= i < |d| ==> IsDigit(d[i])
    ensures var s := "-" + d;
      && (forall i :: 1 <= i < |s| ==> IsDigit(s[i]))
      && Parse(s) == 0 - ParseDigits(d)
  {
    var s := "-" + d;
    assert s[1..] == d;
    assert forall i :: 1 <= i < |s| ==> s[i] == d[i - 1];
  }

  /** A string of digits reads as the value of the digits. */
  lemma ParseUnsigned(d: string)
    requires |d| > 0 && forall i :: 0 <= i < |d| ==> IsDigit(d[i])
    ensures d[0] != '-' && Parse(d) == ParseDigits(d)
  {
    assert IsDigit(d[0]);
  }

  /** Round trip: reading back what `%d` wrote gives the original integer. */
  lemma ParseFormat(n: int)
    ensures Parse(Format(n)) == n
  {
    if n < 0 {
      var d := Digits(-n);
      assert Format(n) == "-" + d;
      ParseNegative(d);
      ParseDigitsOfDigits(-n);
    } else {
      var d := Digits(n);
      assert Format(n) == d;
      ParseUnsigned(d);
      ParseDigitsOfDigits(n);
    }
  }

  /** `%d` is injective: two different integers never print alike. */
  lemma FormatInjective(m: int, n: int)
    requires Format(m) == Format(n)
    ensures m == n
  {
    ParseFormat(m);
    ParseFormat(n);
  }
}

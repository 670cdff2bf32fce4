/** Decimal rendering of integers, as Python's `"%i"` and `str` produce it,
    and the parse that reads it back. */
module Decimal {
  import opened Common
  import opened Strings

  predicate IsDigit(c: char)
  {
    '0' <= c <= '9'
  }

  function DigitChar(d: nat): (c: char)
    requires d < 10
    ensures IsDigit(c)
  {
    ('0' as int + d) as char
  }

  function DigitValue(c: char): nat
    requires IsDigit(c)
  {
    (c as int - '0' as int) as nat
  }

  /** Decimal digits of a natural number, without leading zeros. */
  function DecimalNat(n: nat): (r: string)
    ensures r != []
    ensures forall i :: 0 <= i < |r| ==> IsDigit(r[i])
    ensures |r| > 1 ==> r[0] != '0'
  {
    if n < 10 then [DigitChar(n)] else DecimalNat(n / 10) + [DigitChar(n % 10)]
  }

  /** Python's `"%i" % n`: a minus sign for negative numbers, then the digits. */
  function DecimalInt(n: int): (r: string)
    ensures NoWs(r)
  {
    if n < 0 then "-" + DecimalNat(-n) else DecimalNat(n)
  }

  /** Reads decimal digits back, as Python's `int` does. */
  function ParseNat(s: string): (n: nat)
    requires forall i :: 0 <= i < |s| ==> IsDigit(s[i])
  {
    if s == [] then 0 else ParseNat(s[..|s| - 1]) * 10 + DigitValue(s[|s| - 1])
  }

  function ParseInt(s: string): Option<int>
  {
    if s != [] && s[0] == '-' && |s| > 1 && forall i :: 1 <= i < |s| ==> IsDigit(s[i]) then
      Some(0 - ParseNat(s[1..]))
    else if s != [] && forall i :: 0 <= i < |s| ==> IsDigit(s[i]) then
      Some(ParseNat(s))
    else None
  }

  lemma {:induction false} ParseDecimalNat(n: nat)
    ensures ParseNat(DecimalNat(n)) == n
  {
    if n >= 10 {
      var r := DecimalNat(n);
      assert r[..|r| - 1] == DecimalNat(n / 10);
      ParseDecimalNat(n / 10);
    }
  }

  /** A minus sign before a nonempty run of digits reads as a negative number. */
  lemma ParseNegative(d: string)
    requires d != [] && forall i :: 0 <= i < |d| ==> IsDigit(d[i])
    ensures ParseInt("-" + d) == Some(0 - ParseNat(d))
  {
    var r := "-" + d;
    assert r[0] == '-' && r[1..] == d;
    forall i | 1 <= i < |r| ensures IsDigit(r[i]) {
      assert r[i] == d[i - 1];
    }
  }

  /** A nonempty run of digits reads as a natural number. */
  lemma ParseDigits(d: string)
    requires d != [] && forall i :: 0 <= i < |d| ==> IsDigit(d[i])
    ensures ParseInt(d) == Some(ParseNat(d))
  {
    assert IsDigit(d[0]);
  }

  lemma ParseDecimalNegative(n: int)
    requires n < 0
    ensures ParseInt(DecimalInt(n)) == Some(n)
  {
    var d := DecimalNat(-n);
    assert DecimalInt(n) == "-" + d;
    ParseNegative(d);
    ParseDecimalNat(-n);
  }

  lemma ParseDecimalNonNegative(n: nat)
    ensures ParseInt(DecimalInt(n)) == Some(n)
  {
    var d := DecimalNat(n);
    assert DecimalInt(n) == d;
    ParseDigits(d);
    ParseDecimalNat(n);
  }

  /** Rendering an integer in decimal and reading it back gives the integer. */
  lemma ParseDecimalInt(n: int)
    ensures ParseInt(DecimalInt(n)) == Some(n)
  {
    if n < 0 {
      ParseDecimalNegative(n);
    } else {
      ParseDecimalNonNegative(n);
    }
  }
}

/**
 * Python's `str()` of an integer (decimal digits, a leading `-` for
 * negatives, no leading zeros) and `int()` of such text, its inverse.
 */
module Decimal {
  import opened Wrappers

  predicate IsDigit(c: char)
  {
    '0' <= c <= '9'
  }

  predicate AllDigits(s: string)
  {
    forall k :: 0 <= k < |s| ==> IsDigit(s[k])
  }

  function DigitChar(d: nat): (c: char)
    requires d < 10
    ensures IsDigit(c)
  {
    ('0' as int + d) as char
  }

  function DigitValue(c: char): (d: nat)
    requires IsDigit(c)
    ensures d < 10
  {
    c as int - '0' as int
  }

  /** The decimal digits of `n`, most significant first. */
  function NatToText(n: nat): (s: string)
    ensures |s| > 0 && AllDigits(s)
    ensures s[0] == '0' <==> n == 0
    ensures n == 0 ==> s == "0"
    decreases n
  {
    if n < 10 then [DigitChar(n)] else NatToText(n / 10) + [DigitChar(n % 10)]
  }

  /** The value of a string of decimal digits. */
  function DigitsValue(s: string): nat
    requires AllDigits(s)
    decreases |s|
  {
    if s == [] then 0 else DigitsValue(s[..|s| - 1]) * 10 + DigitValue(s[|s| - 1])
  }

  /** Python `str(i)` for an integer `i`. */
  function IntToText(i: int): (s: string)
    ensures |s| > 0
    ensures s[0] == '-' <==> i < 0
  {
    if i < 0 then "-" + NatToText(-i) else NatToText(i)
  }

  /** A sign or a digit, then digits only. */
  predicate IntegerShape(s: string)
  {
    && |s| > 0
    && (s[0] == '-' || IsDigit(s[0]))
    && forall k :: 1 <= k < |s| ==> IsDigit(s[k])
  }

  /** Python `int(s)` restricted to an optional sign followed by decimal digits. */
  function ParseInt(s: string): (r: Option<int>)
    ensures r.Some? ==> |s| > 0
  {
    if |s| > 0 && (s[0] == '-' || s[0] == '+') then
      var rest := s[1..];
      if |rest| > 0 && AllDigits(rest) then
        var magnitude: int := DigitsValue(rest);
        Some(if s[0] == '-' then -magnitude else magnitude)
      else None
    else if |s| > 0 && AllDigits(s) then Some(DigitsValue(s))
    else None
  }

  lemma {:induction false} NatToTextValue(n: nat)
    ensures DigitsValue(NatToText(n)) == n
    decreases n
  {
    if n >= 10 {
      NatToTextValue(n / 10);
      var s := NatToText(n);
      assert s[..|s| - 1] == NatToText(n / 10);
    }
  }

  /** Reading back the text `str()` gives for an integer yields that integer. */
  lemma IntToTextRoundTrip(i: int)
    ensures ParseInt(IntToText(i)) == Some(i)
  {
    if i < 0 {
      NatToTextValue(-i);
      assert IntToText(i)[1..] == NatToText(-i);
    } else {
      NatToTextValue(i);
    }
  }

  /** The text of an integer is a sign or a digit, then digits only. */
  lemma IntToTextShape(i: int)
    ensures IntegerShape(IntToText(i))
  {
    if i < 0 {
      var t := NatToText(-i);
      assert forall k :: 1 <= k < |IntToText(i)| ==> IntToText(i)[k] == t[k - 1];
    }
  }

  /** Distinct integers have distinct text. */
  lemma IntToTextInjective(i: int, j: int)
    ensures IntToText(i) == IntToText(j) <==> i == j
  {
    IntToTextRoundTrip(i);
    IntToTextRoundTrip(j);
  }
}

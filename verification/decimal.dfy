/** Decimal rendering of integers, as Rust's `Display` for `i64` prints them:
    an optional '-' followed by the digits of the magnitude, without leading
    zeros. Parsing is the partner that shows the rendering loses nothing. */
module Decimal {

  predicate IsDigit(c: char) {
    '0' <= c <= '9'
  }

  predicate AllDigits(s: string) {
    forall i :: 0 <= i < |s| ==> IsDigit(s[i])
  }

  /** Well-formed decimal text: digits, optionally preceded by one '-'. */
  predicate IsDecimal(s: string) {
    if |s| > 0 && s[0] == '-' then |s| > 1 && AllDigits(s[1..])
    else |s| > 0 && AllDigits(s)
  }

  function DigitChar(d: nat): (c: char)
    requires d < 10
    ensures IsDigit(c) && c as int - '0' as int == d
  {
    ('0' as int + d) as char
  }

  /** The digits of `n`, most significant first. */
  function NatToDecimal(n: nat): (s: string)
    ensures |s| >= 1 && AllDigits(s)
    ensures n >= 10 ==> |s| > 1
    ensures |s| > 1 ==> s[0] != '0'
    ensures s[0] == '0' <==> n == 0
    decreases n
  {
    if n < 10 then [DigitChar(n)]
    else NatToDecimal(n / 10) + [DigitChar(n % 10)]
  }

  /** `n.to_string()` for a signed integer: canonical text, so a zero digit
      leads only the text "0" itself. */
  function IntToDecimal(n: int): (s: string)
    ensures IsDecimal(s)
    ensures s[0] == '-' <==> n < 0
    ensures s[0] == '0' <==> n == 0
    ensures s[0] == '0' ==> |s| == 1
    ensures s[0] == '-' ==> s[1] != '0'
  {
    if n < 0 then "-" + NatToDecimal(-n) else NatToDecimal(n)
  }

  function ParseDigits(s: string): nat
    requires AllDigits(s)
    decreases |s|
  {
    if |s| == 0 then 0
    else ParseDigits(s[..|s| - 1]) * 10 + (s[|s| - 1] as int - '0' as int)
  }

  function ParseDecimal(s: string): int
    requires IsDecimal(s)
  {
    if s[0] == '-' then -(ParseDigits(s[1..]) as int) else ParseDigits(s)
  }

  lemma {:induction false} NatRoundTrip(n: nat)
    ensures ParseDigits(NatToDecimal(n)) == n
  {
    if n >= 10 {
      var s := NatToDecimal(n);
      assert s[..|s| - 1] == NatToDecimal(n / 10);
      NatRoundTrip(n / 10);
    }
  }

  /** Printing an integer and reading it back yields the same integer. */
  lemma DecimalRoundTrip(n: int)
    ensures ParseDecimal(IntToDecimal(n)) == n
  {
    var s := IntToDecimal(n);
    if n < 0 {
      assert s[1..] == NatToDecimal(-n);
      NatRoundTrip(-n);
    } else {
      NatRoundTrip(n);
    }
  }

  /** Distinct integers print as distinct strings. */
  lemma DecimalInjective(a: int, b: int)
    ensures IntToDecimal(a) == IntToDecimal(b) <==> a == b
  {
    DecimalRoundTrip(a);
    DecimalRoundTrip(b);
  }
}

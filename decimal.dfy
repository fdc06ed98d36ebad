/** Ruby's `Integer#to_s`: base-ten text with a leading '-' for negative numbers. */
module Decimal {

  predicate IsDigit(c: char)
  {
    '0' <= c <= '9'
  }

  function Digit(d: nat): (c: char)
    requires d < 10
    ensures IsDigit(c)
  {
    (48 + d) as char
  }

  function DigitValue(c: char): nat
    requires IsDigit(c)
  {
    c as int - 48
  }

  /** The decimal digits of `n`, most significant first, without leading zeros. */
  function NatToString(n: nat): (r: string)
    ensures |r| > 0
    ensures forall i | 0 <= i < |r| :: IsDigit(r[i])
    ensures r[0] == '0' ==> n == 0
  {
    if n < 10 then [Digit(n)] else NatToString(n / 10) + [Digit(n % 10)]
  }

  /** `Integer#to_s`. */
  function IntToString(i: int): (r: string)
    ensures |r| > 0
    ensures r[0] == '-' <==> i < 0
  {
    if i < 0 then "-" + NatToString(-i) else NatToString(i)
  }

  predicate AllDigits(s: string)
  {
    forall i | 0 <= i < |s| :: IsDigit(s[i])
  }

  /** Reads a run of decimal digits back into a number. */
  function ParseNat(s: string): nat
    requires AllDigits(s)
  {
    if s == [] then 0 else 10 * ParseNat(s[..|s| - 1]) + DigitValue(s[|s| - 1])
  }

  /** Reads an optional '-' followed by digits. */
  function ParseInt(s: string): int
    requires |s| > 0 && (if s[0] == '-' then AllDigits(s[1..]) else AllDigits(s))
  {
    if s[0] == '-' then -(ParseNat(s[1..]) as int) else ParseNat(s)
  }

  /** Decimal rendering loses nothing: the digits read back to the number. */
  lemma {:induction false} NatRoundTrip(n: nat)
    ensures ParseNat(NatToString(n)) == n
  {
    if n >= 10 {
      var r := NatToString(n);
      assert r[..|r| - 1] == NatToString(n / 10);
      NatRoundTrip(n / 10);
    }
  }

  /** Integer rendering loses nothing, so distinct integers render differently. */
  lemma IntRoundTrip(i: int)
    ensures var r := IntToString(i);
      (if r[0] == '-' then AllDigits(r[1..]) else AllDigits(r)) && ParseInt(r) == i
  {
    var r := IntToString(i);
    if i < 0 {
      assert r[1..] == NatToString(-i);
      NatRoundTrip(-i);
    } else {
      NatRoundTrip(i);
    }
  }
}

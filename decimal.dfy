/** Decimal text of integer JavaScript numbers, as a template literal
    `${n}` writes it: an optional minus sign and the digits without leading
    zeros. This is the text JavaScript writes for integers of magnitude up to
    2^53 (Number.MAX_SAFE_INTEGER). Above that Number.prototype.toString
    writes the shortest digits that identify the double and pads with zeros,
    and from 1e21 it switches to exponent notation; those magnitudes are not
    part of this model. */
module Decimal {

  function DigitChar(d: int): char
    requires 0 <= d < 10
  {
    ('0' as int + d) as char
  }

  predicate IsDigit(c: char)
  {
    '0' <= c <= '9'
  }

  /** The digits of n without leading zeros: only 0 itself is written
      starting with `0`. */
  function NatToString(n: nat): (r: string)
    ensures |r| >= 1
    ensures forall i :: 0 <= i < |r| ==> IsDigit(r[i])
    ensures r[0] == '0' ==> n == 0
    decreases n
  {
    if n < 10 then [DigitChar(n)] else NatToString(n / 10) + [DigitChar(n % 10)]
  }

  /** `${x}` for an integer x. */
  function IntToString(x: int): (r: string)
    ensures |r| >= 1
    ensures forall i :: 0 <= i < |r| ==> IsDigit(r[i]) || (i == 0 && r[i] == '-')
    ensures r[0] == '-' <==> x < 0
    ensures r[0] == '0' ==> r == "0"
    ensures r[0] == '-' ==> |r| >= 2 && r[1] != '0'
  {
    if x < 0 then "-" + NatToString(-x) else NatToString(x)
  }

  /** The value of a string of decimal digits. */
  function ParseNat(s: string): nat
    requires forall i :: 0 <= i < |s| ==> IsDigit(s[i])
  {
    if s == [] then 0
    else
      assert IsDigit(s[|s| - 1]);
      10 * ParseNat(s[..|s| - 1]) + (s[|s| - 1] as int - '0' as int)
  }

  /** The value of `${x}` read back. */
  function ParseInt(s: string): int
    requires |s| >= 1
    requires forall i :: 0 <= i < |s| ==> IsDigit(s[i]) || (i == 0 && s[i] == '-')
  {
    var magnitude: int := if s[0] == '-' then ParseNat(s[1..]) else ParseNat(s);
    if s[0] == '-' then -magnitude else magnitude
  }

  lemma {:induction false} NatRoundTrip(n: nat)
    ensures ParseNat(NatToString(n)) == n
    decreases n
  {
    if n >= 10 {
      var s := NatToString(n);
      NatRoundTrip(n / 10);
      assert s[..|s| - 1] == NatToString(n / 10);
    }
  }

  /** Round trip: the decimal text of an integer reads back as that integer. */
  lemma IntRoundTrip(x: int)
    ensures ParseInt(IntToString(x)) == x
  {
    var s := IntToString(x);
    if x < 0 {
      NatRoundTrip(-x);
      assert s[1..] == NatToString(-x);
    } else {
      NatRoundTrip(x);
    }
  }

  /** Distinct integers have distinct decimal text. */
  lemma NatToStringInjective(m: nat, n: nat)
    requires NatToString(m) == NatToString(n)
    ensures m == n
  {
    NatRoundTrip(m);
    NatRoundTrip(n);
  }
}

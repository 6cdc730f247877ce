/**
 * Decimal rendering of natural numbers, as JavaScript's template literals
 * (`${n}`) print a non-negative integer, and the matching parser.
 */
module Decimal {

  predicate IsDigit(c: char) {
    '0' <= c <= '9'
  }

  predicate AllDigits(s: string) {
    forall i :: 0 <= i < |s| ==> IsDigit(s[i])
  }

  function DigitChar(d: nat): (c: char)
    requires d < 10
    ensures IsDigit(c)
  {
    (48 + d) as char
  }

  function DigitValue(c: char): (d: nat)
    requires IsDigit(c)
    ensures d < 10
  {
    (c as int) - 48
  }

  /** The shortest decimal numeral of `n`: digits only, no leading zero. */
  function NatToString(n: nat): (r: string)
    ensures 1 <= |r|
    ensures AllDigits(r)
    ensures r[0] == '0' ==> n == 0 && |r| == 1
    decreases n
  {
    if n < 10 then [DigitChar(n)] else NatToString(n / 10) + [DigitChar(n % 10)]
  }

  /** Value of a numeral, most significant digit first. */
  function ParseDigits(s: string): nat
    requires AllDigits(s)
    decreases |s|
  {
    if s == [] then 0 else 10 * ParseDigits(s[..|s| - 1]) + DigitValue(s[|s| - 1])
  }

  /** Printing then parsing a number gives the number back. */
  lemma {:induction false} ParsePrinted(n: nat)
    ensures ParseDigits(NatToString(n)) == n
    decreases n
  {
    var r := NatToString(n);
    if n < 10 {
      assert r[..|r| - 1] == [];
    } else {
      ParsePrinted(n / 10);
      assert r[..|r| - 1] == NatToString(n / 10);
    }
  }

  /** Distinct numbers print as distinct numerals. */
  lemma PrintInjective(m: nat, n: nat)
    requires NatToString(m) == NatToString(n)
    ensures m == n
  {
    ParsePrinted(m);
    ParsePrinted(n);
  }
}

/** Decimal rendering of a count, as an f-string formats `len(...)`. */
module Decimal {

  predicate IsDigits(s: string) {
    forall i :: 0 <= i < |s| ==> '0' <= s[i] <= '9'
  }

  /** The number a digit string denotes. */
  function Value(s: string): nat
    requires IsDigits(s)
  {
    if |s| == 0 then 0
    else Value(s[..|s| - 1]) * 10 + (s[|s| - 1] as int - '0' as int)
  }

  function Digit(d: nat): (c: char)
    requires d < 10
  {
    ('0' as int + d) as char
  }

  function NatToDecimal(n: nat): string {
    if n < 10 then [Digit(n)] else NatToDecimal(n / 10) + [Digit(n % 10)]
  }

  /** The rendering is a non-empty digit string with no leading zero that denotes `n`. */
  lemma {:induction false} NatToDecimalRoundTrip(n: nat)
    ensures var s := NatToDecimal(n);
            && |s| >= 1 && IsDigits(s)
            && (s[0] == '0' ==> n == 0)
            && Value(s) == n
  {
    if n >= 10 {
      var p := NatToDecimal(n / 10);
      NatToDecimalRoundTrip(n / 10);
      var s := p + [Digit(n % 10)];
      assert s[..|s| - 1] == p;
      assert s[0] == p[0];
    }
  }
}

/** Decimal numbers as Python prints and reads them. */
module Decimal {
  import opened Wrappers

  predicate IsDigit(c: char) { '0' <= c <= '9' }

  predicate AllDigits(s: string) { forall c | c in s :: IsDigit(c) }

  function DigitOf(d: nat): (c: char)
    requires d < 10
    ensures IsDigit(c)
  {
    '0' + d as char
  }

  function OfNat(n: nat): (s: string)
    ensures s != "" && AllDigits(s)
    decreases n
  {
    if n < 10 then [DigitOf(n)] else OfNat(n / 10) + [DigitOf(n % 10)]
  }

  function OfInt(n: int): string { if n < 0 then "-" + OfNat(-n) else OfNat(n) }

  function ToNat(s: string): nat
    requires AllDigits(s)
    decreases |s|
  {
    if s == "" then 0
    else
      assert IsDigit(s[|s| - 1]);
      10 * ToNat(s[..|s| - 1]) + (s[|s| - 1] as int - '0' as int)
  }

  lemma {:induction false} RoundTrip(n: nat)
    ensures ToNat(OfNat(n)) == n
    decreases n
  {
    if n >= 10 {
      RoundTrip(n / 10);
      var s := OfNat(n / 10) + [DigitOf(n % 10)];
      assert s[..|s| - 1] == OfNat(n / 10);
    } else {
      assert [DigitOf(n)][..0] == "";
    }
  }
}

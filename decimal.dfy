/** Decimal rendering of an unsigned integer, as Rust's `to_string` gives it
    for the `u128` millisecond count: ASCII digits only, no sign, no
    separators and no leading zero except for the value 0 itself. */
module Decimal {

  predicate IsDigit(c: char) {
    '0' <= c <= '9'
  }

  predicate AllDigits(s: string) {
    forall i :: 0 <= i < |s| ==> IsDigit(s[i])
  }

  /** The strings `to_string` can produce: non-empty, digits only, and a
      leading '0' only in "0". */
  predicate IsCanonical(s: string) {
    && |s| >= 1
    && AllDigits(s)
    && (s[0] == '0' ==> |s| == 1)
  }

  function DigitValue(c: char): (d: nat)
    requires IsDigit(c)
    ensures d < 10
  {
    c as int - '0' as int
  }

  function DigitChar(d: nat): (c: char)
    requires d < 10
    ensures IsDigit(c) && DigitValue(c) == d
  {
    (d + '0' as int) as char
  }

  /** `n.to_string()` */
  function ToDecimal(n: nat): (s: string)
    ensures IsCanonical(s)
    ensures n < 10 <==> |s| == 1
  {
    if n < 10 then [DigitChar(n)] else ToDecimal(n / 10) + [DigitChar(n % 10)]
  }

  /** The number a string of digits denotes (most significant digit first). */
  function Value(s: string): nat
    requires AllDigits(s)
  {
    if s == [] then 0 else Value(s[..|s| - 1]) * 10 + DigitValue(s[|s| - 1])
  }

  /** Reading back a rendered number gives the number. */
  lemma {:induction false} ValueOfToDecimal(n: nat)
    ensures Value(ToDecimal(n)) == n
  {
    if n >= 10 {
      var s := ToDecimal(n);
      assert s[..|s| - 1] == ToDecimal(n / 10);
      ValueOfToDecimal(n / 10);
    }
  }

  /** A number is at least its leading digit. */
  lemma {:induction false} ValueAtLeastLeadingDigit(s: string)
    requires |s| >= 1 && AllDigits(s)
    ensures Value(s) >= DigitValue(s[0])
  {
    if |s| > 1 {
      ValueAtLeastLeadingDigit(s[..|s| - 1]);
    }
  }

  /** Every canonical digit string is the rendering of the number it denotes:
      the canonical strings are exactly the outputs of `ToDecimal`. */
  lemma {:induction false} ToDecimalOfValue(s: string)
    requires IsCanonical(s)
    ensures ToDecimal(Value(s)) == s
  {
    if |s| > 1 {
      var p := s[..|s| - 1];
      assert IsCanonical(p);
      ValueAtLeastLeadingDigit(p);
      ToDecimalOfValue(p);
      assert s == p + [s[|s| - 1]];
    }
  }

  /** Different numbers have different renderings. */
  lemma ToDecimalInjective(m: nat, n: nat)
    ensures ToDecimal(m) == ToDecimal(n) <==> m == n
  {
    if ToDecimal(m) == ToDecimal(n) {
      ValueOfToDecimal(m);
      ValueOfToDecimal(n);
    }
  }
}

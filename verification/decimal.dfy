/** Decimal rendering of natural numbers, as a JavaScript template literal
    renders a millisecond timestamp: no sign, no leading zeros, no exponent
    (a timestamp is far below 10^21, where JavaScript would switch to
    exponent notation). */
module Decimal {

  predicate IsDigit(c: char) {
    '0' <= c <= '9'
  }

  predicate AllDigits(s: string) {
    forall i :: 0 <= i < |s| ==> IsDigit(s[i])
  }

  /** A digit string as `Number.prototype.toString` produces it: non-empty,
      and without a leading zero unless it is "0" itself. */
  predicate IsCanonical(s: string) {
    && |s| >= 1
    && AllDigits(s)
    && (|s| > 1 ==> s[0] != '0')
  }

  function DigitValue(c: char): (d: nat)
    requires IsDigit(c)
    ensures d < 10
  {
    c as int - '0' as int
  }

  function DigitChar(d: nat): (c: char)
    requires d < 10
    ensures IsDigit(c) && DigitValue(c) == d
  {
    ('0' as int + d) as char
  }

  /** The value of a digit string, most significant digit first. */
  function DecimalValue(s: string): nat
    requires AllDigits(s)
  {
    if s == [] then 0 else 10 * DecimalValue(s[..|s| - 1]) + DigitValue(s[|s| - 1])
  }

  /** `${n}` for a non-negative integer n. */
  function NatToDecimal(n: nat): (s: string)
    ensures IsCanonical(s)
    ensures s[0] == '0' <==> n == 0
    decreases n
  {
    if n < 10 then [DigitChar(n)] else NatToDecimal(n / 10) + [DigitChar(n % 10)]
  }

  /** Reading back the rendered digits gives the number. */
  lemma {:induction false} DecimalRoundTrip(n: nat)
    ensures DecimalValue(NatToDecimal(n)) == n
    decreases n
  {
    if n >= 10 {
      var s := NatToDecimal(n);
      assert s[..|s| - 1] == NatToDecimal(n / 10);
      DecimalRoundTrip(n / 10);
    }
  }

  /** Distinct timestamps give distinct renderings. */
  lemma DecimalInjective(a: nat, b: nat)
    ensures NatToDecimal(a) == NatToDecimal(b) ==> a == b
  {
    DecimalRoundTrip(a);
    DecimalRoundTrip(b);
  }

  /** Every canonical digit string is the rendering of its value, so the
      rendering is onto the canonical strings. */
  lemma {:induction false} CanonicalIsRendering(s: string)
    requires IsCanonical(s)
    ensures NatToDecimal(DecimalValue(s)) == s
    decreases |s|
  {
    if |s| > 1 {
      var init := s[..|s| - 1];
      assert IsCanonical(init);
      CanonicalIsRendering(init);
      LeadingDigitPositive(init);
      var n := DecimalValue(s);
      assert n / 10 == DecimalValue(init);
      assert n % 10 == DigitValue(s[|s| - 1]);
      assert NatToDecimal(n) == init + [s[|s| - 1]];
    }
  }

  /** A canonical string of two or more digits denotes at least 10. */
  lemma {:induction false} LeadingDigitPositive(s: string)
    requires IsCanonical(s)
    ensures s[0] != '0' ==> DecimalValue(s) > 0
    decreases |s|
  {
    if |s| > 1 && s[0] != '0' {
      var init := s[..|s| - 1];
      assert IsCanonical(init);
      LeadingDigitPositive(init);
    }
  }
}

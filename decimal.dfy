/**
 * Decimal notation of whole numbers and rounding of a quotient to the nearest
 * whole number: the arithmetic behind PHP's `number_format` and JavaScript's
 * `Math.round` as the model uses them, and behind the integers interpolated
 * into the client's messages.
 */
module Decimal {

  predicate IsDigit(c: char) { '0' <= c <= '9' }

  predicate AllDigits(s: string) { forall i :: 0 <= i < |s| ==> IsDigit(s[i]) }

  function DigitChar(d: nat): (c: char)
    requires d < 10
    ensures IsDigit(c)
  {
    ('0' as int + d) as char
  }

  function DigitValue(c: char): (d: nat)
    requires IsDigit(c)
    ensures d < 10 && DigitChar(d) == c
  {
    c as int - '0' as int
  }

  /** The shortest decimal notation of `n`: digits only, no sign, no separators, no leading zero. */
  function NatToDecimal(n: nat): (r: string)
    ensures 1 <= |r| && AllDigits(r)
    ensures |r| > 1 ==> r[0] != '0'
  {
    if n < 10 then [DigitChar(n)] else NatToDecimal(n / 10) + [DigitChar(n % 10)]
  }

  /** The number a string of decimal digits denotes, most significant digit first. */
  function DecimalValue(s: string): nat
    requires AllDigits(s)
  {
    if s == [] then 0 else DecimalValue(s[..|s| - 1]) * 10 + DigitValue(s[|s| - 1])
  }

  /** Reading back the notation of `n` gives `n`. */
  lemma {:induction false} DecimalRoundTrip(n: nat)
    ensures DecimalValue(NatToDecimal(n)) == n
  {
    if n >= 10 {
      var r := NatToDecimal(n);
      DecimalRoundTrip(n / 10);
      assert r[..|r| - 1] == NatToDecimal(n / 10);
    }
  }

  /** Every canonical digit string (non-empty, no leading zero) is the notation of the number it denotes. */
  lemma {:induction false} CanonicalRoundTrip(s: string)
    requires 1 <= |s| && AllDigits(s) && (|s| > 1 ==> s[0] != '0')
    ensures NatToDecimal(DecimalValue(s)) == s
  {
    if |s| > 1 {
      var p := s[..|s| - 1];
      CanonicalRoundTrip(p);
      PositiveValue(p);
      var n := DecimalValue(s);
      assert n / 10 == DecimalValue(p) && n % 10 == DigitValue(s[|s| - 1]);
      assert s == p + [s[|s| - 1]];
    }
  }

  /** A digit string with a non-zero first digit denotes a positive number. */
  lemma {:induction false} PositiveValue(s: string)
    requires 1 <= |s| && AllDigits(s) && s[0] != '0'
    ensures DecimalValue(s) > 0
  {
    if |s| > 1 {
      PositiveValue(s[..|s| - 1]);
    }
  }

  /**
   * The whole number nearest to `a / b`, a tie going upwards: `Math.round(a / b)`
   * and PHP's half-up rounding for non-negative operands; 0 when `b` is 0.
   */
  function RoundedQuotient(a: nat, b: nat): (r: nat)
    ensures b > 0 ==> b * (2 * r) <= 2 * a + b < b * (2 * r + 2)
  {
    if b == 0 then 0
    else
      var q := (2 * a + b) / (2 * b);
      assert 2 * a + b == (2 * b) * q + (2 * a + b) % (2 * b);
      q
  }

  /** A rounded quotient lies between any bounds its operands place on the exact quotient. */
  lemma RoundedQuotientBetween(a: nat, b: nat, lo: nat, hi: nat)
    requires b > 0 && lo * b <= a <= hi * b
    ensures lo <= RoundedQuotient(a, b) <= hi
  {
    var r := RoundedQuotient(a, b);
    assert r <= hi by {
      Doubled(b, hi);
      MulCancel(b, 2 * r, 2 * hi + 2);
    }
    assert lo <= r by {
      Doubled(b, lo);
      MulCancel(b, 2 * lo, 2 * r + 2);
    }
  }

  lemma Doubled(b: nat, x: nat)
    ensures b * (2 * x) == 2 * (x * b) && b * (2 * x + 2) == 2 * (x * b) + 2 * b
  {
  }

  /** Multiplication by a positive number preserves strict order, so it can be cancelled. */
  lemma MulCancel(b: nat, x: nat, y: nat)
    requires b > 0 && b * x < b * y
    ensures x < y
  {
    if x >= y {
      MulMonotone(b, y, x);
    }
  }

  lemma MulMonotone(b: nat, x: nat, y: nat)
    requires x <= y
    ensures b * x <= b * y
  {
  }
}

/**
 * `int.Parse` on the fixed-width numeric fields of a daytime response, restricted
 * to strings of decimal digits, and its inverse, zero-padded formatting.
 */
module Decimal {
  import opened Wrappers

  predicate IsDigit(c: char) {
    '0' <= c <= '9'
  }

  predicate AllDigits(s: string) {
    forall i :: 0 <= i < |s| ==> IsDigit(s[i])
  }

  function Pow10(n: nat): (r: nat)
    ensures r >= 1
  {
    if n == 0 then 1 else 10 * Pow10(n - 1)
  }

  function DigitValue(c: char): nat
    requires IsDigit(c)
  {
    (c as int) - ('0' as int)
  }

  function DigitChar(d: nat): (c: char)
    requires d < 10
    ensures IsDigit(c) && DigitValue(c) == d
  {
    (('0' as int) + d) as char
  }

  /** The value of a digit string, most significant digit first. */
  function DecimalValue(s: string): (v: nat)
    requires AllDigits(s)
    ensures v < Pow10(|s|)
  {
    if s == [] then 0
    else
      var p := DecimalValue(s[..|s| - 1]);
      var d := DigitValue(s[|s| - 1]);
      assert p * 10 + d < (p + 1) * 10 <= Pow10(|s| - 1) * 10;
      10 * p + d
  }

  /** `int.Parse` on a field: defined exactly on non-empty digit strings. */
  function ParseNat(s: string): (r: Option<nat>)
    ensures r.Some? <==> |s| > 0 && AllDigits(s)
    ensures r.Some? ==> r.value == DecimalValue(s) < Pow10(|s|)
  {
    if |s| > 0 && AllDigits(s) then Some(DecimalValue(s)) else None
  }

  /** The last `width` decimal digits of `n`, zero-padded. */
  function FormatNat(n: nat, width: nat): (s: string)
    ensures |s| == width && AllDigits(s)
  {
    if width == 0 then [] else FormatNat(n / 10, width - 1) + [DigitChar(n % 10)]
  }

  /** Formatting and parsing are inverse on numbers that fit the width. */
  lemma {:induction false} ParseFormat(n: nat, width: nat)
    requires width > 0 && n < Pow10(width)
    ensures ParseNat(FormatNat(n, width)) == Some(n)
  {
    DecimalFormat(n, width);
  }

  lemma {:induction false} DecimalFormat(n: nat, width: nat)
    requires n < Pow10(width)
    ensures DecimalValue(FormatNat(n, width)) == n
  {
    if width > 0 {
      var s := FormatNat(n, width);
      assert s[..width - 1] == FormatNat(n / 10, width - 1);
      DecimalFormat(n / 10, width - 1);
    }
  }

  /** Every digit string is the formatting of its own value: the other half of the inverse. */
  lemma {:induction false} FormatDecimal(s: string)
    requires AllDigits(s)
    ensures FormatNat(DecimalValue(s), |s|) == s
  {
    if s != [] {
      var p := DecimalValue(s[..|s| - 1]);
      var d := DigitValue(s[|s| - 1]);
      assert (10 * p + d) / 10 == p && (10 * p + d) % 10 == d;
      FormatDecimal(s[..|s| - 1]);
      assert s == s[..|s| - 1] + [s[|s| - 1]];
    }
  }
}

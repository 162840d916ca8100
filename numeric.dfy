/**
 * The numeric coercions of the cleaner: `pd.to_numeric(..., errors='coerce')`
 * on text, and the truncating `astype(int)` of a float.
 */
module Numeric {
  import opened Wrappers

  predicate IsDigit(c: char) {
    '0' <= c <= '9'
  }

  predicate AllDigits(s: string) {
    forall k :: 0 <= k < |s| ==> IsDigit(s[k])
  }

  function DigitValue(c: char): nat
    requires IsDigit(c)
  {
    c as int - '0' as int
  }

  function Pow10(n: nat): (p: nat)
    ensures p >= 1
  {
    if n == 0 then 1 else 10 * Pow10(n - 1)
  }

  /** The value of a run of decimal digits, most significant first. */
  function DigitsValue(s: string): nat
    requires AllDigits(s)
  {
    if |s| == 0 then 0 else 10 * DigitsValue(s[..|s| - 1]) + DigitValue(s[|s| - 1])
  }

  /** k digits never reach 10^k: a fraction part is always below one. */
  lemma {:induction false} DigitsValueBelowPow10(s: string)
    requires AllDigits(s)
    ensures DigitsValue(s) < Pow10(|s|)
  {
    if |s| > 0 {
      DigitsValueBelowPow10(s[..|s| - 1]);
    }
  }

  /** Python's `str(n)` for a non-negative integer. */
  function NatToString(n: nat): (s: string)
    ensures |s| > 0 && AllDigits(s)
    ensures DigitsValue(s) == n
  {
    var d := ['0' + (n % 10) as char];
    if n < 10 then d else
      var t := NatToString(n / 10);
      assert (t + d)[..|t + d| - 1] == t;
      t + d
  }

  /** Python's `str(n)`. */
  function IntToString(n: int): string {
    if n < 0 then "-" + NatToString(-n) else NatToString(n)
  }

  /** Length of the run of digits that starts `s`. */
  function DigitRun(s: string): (n: nat)
    ensures n <= |s| && AllDigits(s[..n])
    ensures n < |s| ==> !IsDigit(s[n])
  {
    if |s| == 0 || !IsDigit(s[0]) then 0
    else
      var m := DigitRun(s[1..]);
      assert s[..1 + m] == [s[0]] + s[1..][..m];
      1 + m
  }

  /**
   * An unsigned decimal: digits, optionally a point and more digits, with at
   * least one digit in all ("12", "12.", ".5", "12.50").
   */
  function ParseUnsigned(s: string): Option<real> {
    var p := DigitRun(s);
    var whole := DigitsValue(s[..p]) as real;
    if p == |s| then
      if p > 0 then Some(whole) else None
    else if s[p] == '.' && AllDigits(s[p + 1..]) && (p > 0 || p + 1 < |s|) then
      Some(whole + DigitsValue(s[p + 1..]) as real / Pow10(|s| - p - 1) as real)
    else None
  }

  /** `pd.to_numeric` on one text value: a signed decimal, or None (coerced to NaN). */
  function ParseDecimal(s: string): Option<real> {
    if |s| > 0 && (s[0] == '+' || s[0] == '-') then
      match ParseUnsigned(s[1..])
      case Some(v) => Some(if s[0] == '-' then -v else v)
      case None => None
    else ParseUnsigned(s)
  }

  /** Parsing the decimal rendering of an integer gives the integer back. */
  lemma ParseIntToString(n: int)
    ensures ParseDecimal(IntToString(n)) == Some(n as real)
  {
    var m: nat := if n < 0 then -n else n;
    var t := NatToString(m);
    assert DigitRun(t) == |t|;
    assert t[..|t|] == t;
    assert ParseUnsigned(t) == Some(m as real);
    if n < 0 {
      assert ("-" + t)[1..] == t;
    }
  }

  lemma FractionBelowOne(a: nat, b: nat)
    requires a < b
    ensures 0.0 <= a as real / b as real < 1.0
  {
    var q := a as real / b as real;
    assert q * b as real == a as real;
  }

  /** A parsed decimal's integer part: the digits before the point. */
  lemma ParseUnsignedWhole(s: string, v: real)
    requires ParseUnsigned(s) == Some(v)
    ensures v >= 0.0
    ensures DigitsValue(s[..DigitRun(s)]) as real <= v < DigitsValue(s[..DigitRun(s)]) as real + 1.0
  {
    var p := DigitRun(s);
    if p < |s| {
      var f := s[p + 1..];
      DigitsValueBelowPow10(f);
      FractionBelowOne(DigitsValue(f), Pow10(|f|));
    }
  }

  /** numpy's float-to-int cast: truncation toward zero. */
  function Trunc(x: real): (n: int)
    ensures x >= 0.0 ==> n as real <= x < n as real + 1.0
    ensures x < 0.0 ==> n as real - 1.0 < x <= n as real
  {
    if x >= 0.0 then x.Floor else -((-x).Floor)
  }

  /** The digits `ParseDecimal` reads after an optional sign. */
  function UnsignedPart(s: string): string {
    if |s| > 0 && (s[0] == '+' || s[0] == '-') then s[1..] else s
  }

  /** Truncating a parsed decimal keeps its sign and the digits before the point. */
  lemma TruncParsedDecimal(s: string, v: real)
    requires ParseDecimal(s) == Some(v)
    ensures var u := UnsignedPart(s);
            var w: int := DigitsValue(u[..DigitRun(u)]);
            Trunc(v) == if |s| > 0 && s[0] == '-' then -w else w
  {
    var u := UnsignedPart(s);
    var uv :| ParseUnsigned(u) == Some(uv) && v == (if |s| > 0 && s[0] == '-' then -uv else uv);
    ParseUnsignedWhole(u, uv);
  }
}

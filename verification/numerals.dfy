/** Digit strings and decimal numbers: Python's `int()` on a digit string,
    `float()` on a plain decimal, `round(x, 2)` (round half to even on the exact
    value) and `repr` of a float holding a whole number of hundredths. */
module Numerals {
  import opened Options
  import opened Text

  predicate IsDigit(c: char) {
    '0' <= c <= '9'
  }

  predicate AllDigits(s: string) {
    forall i :: 0 <= i < |s| ==> IsDigit(s[i])
  }

  function DigitValue(c: char): nat
    requires IsDigit(c)
  {
    c as int - '0' as int
  }

  function DigitChar(d: nat): (c: char)
    requires d < 10
    ensures IsDigit(c) && DigitValue(c) == d
  {
    ('0' as int + d) as char
  }

  /** The number a digit string denotes, read most significant digit first. */
  function DigitsValue(s: string): nat
    requires AllDigits(s)
    decreases |s|
  {
    if |s| == 0 then 0 else DigitsValue(s[..|s| - 1]) * 10 + DigitValue(s[|s| - 1])
  }

  function Pow10(k: nat): (r: nat)
    ensures r >= 1
  {
    if k == 0 then 1 else 10 * Pow10(k - 1)
  }

  /** Python's `int(s)` on an already stripped string, accepting ASCII digits only. */
  function ParseNat(s: string): (r: Option<nat>)
    ensures r.Some? <==> |s| > 0 && AllDigits(s)
  {
    if |s| > 0 && AllDigits(s) then Some(DigitsValue(s)) else None
  }

  /** The decimal digits of `n`, without leading zeros. */
  function NatToString(n: nat): (r: string)
    ensures |r| > 0 && AllDigits(r) && DigitsValue(r) == n
    ensures |r| > 1 ==> r[0] != '0'
    decreases n
  {
    if n < 10 then [DigitChar(n)]
    else
      var r := NatToString(n / 10) + [DigitChar(n % 10)];
      assert r[..|r| - 1] == NatToString(n / 10);
      r
  }

  /** Printing then parsing a number gives it back. */
  lemma ParseNatToString(n: nat)
    ensures ParseNat(NatToString(n)) == Some(n)
  {
  }

  /** `n / d` rounded to the nearest integer, ties to the even neighbour, as
      Python's `round` does on an exactly representable quotient. */
  function RoundHalfEven(n: nat, d: nat): (r: nat)
    requires d > 0
    ensures 2 * (n - r * d) <= d && 2 * (r * d - n) <= d
    ensures 2 * (n - r * d) == d || 2 * (r * d - n) == d ==> r % 2 == 0
  {
    var q := n / d;
    var rem := n % d;
    assert n == q * d + rem;
    assert (q + 1) * d == q * d + d;
    if 2 * rem < d then q
    else if 2 * rem > d then q + 1
    else if q % 2 == 0 then q
    else q + 1
  }

  /** A decimal number `mantissa / 10^scale`. */
  datatype Decimal = Decimal(mantissa: nat, scale: nat)

  /** Two decimals denote the same number. */
  predicate SameValue(a: Decimal, b: Decimal) {
    a.mantissa * Pow10(b.scale) == b.mantissa * Pow10(a.scale)
  }

  /** Python's `float(s)` restricted to plain decimals: digits with at most one
      '.', and at least one digit, after stripping surrounding white space. */
  function ParseDecimal(s: string): Option<Decimal> {
    ParsePlainDecimal(Strip(s))
  }

  /** A plain decimal without surrounding white space. */
  function ParsePlainDecimal(t: string): (r: Option<Decimal>)
    ensures r.Some? ==> |t| > 0
  {
    match Find(t, ".")
    case None =>
      if |t| > 0 && AllDigits(t) then Some(Decimal(DigitsValue(t), 0)) else None
    case Some(i) =>
      var whole := t[..i];
      var frac := t[i + 1..];
      if AllDigits(whole) && AllDigits(frac) && |whole| + |frac| > 0 then
        Some(Decimal(DigitsValue(whole) * Pow10(|frac|) + DigitsValue(frac), |frac|))
      else None
  }

  /** Python's `repr` of the float `h / 100`: the integral part, a point, and the
      hundredths with trailing zeros dropped but at least one digit kept. */
  function HundredthsText(h: nat): (r: string)
    ensures |r| > 0 && ' ' !in r
  {
    NatToString(h / 100) + "." + FractionDigits(h % 100)
  }

  /** The digits after the point for `f` hundredths, trailing zeros dropped but
      at least one kept. */
  function FractionDigits(f: nat): (r: string)
    requires f < 100
    ensures 1 <= |r| <= 2 && AllDigits(r)
    ensures |r| == 1 ==> DigitsValue(r) * 10 == f
    ensures |r| == 2 ==> DigitsValue(r) == f
  {
    if f == 0 then "0"
    else if f % 10 == 0 then [DigitChar(f / 10)]
    else
      var r := [DigitChar(f / 10), DigitChar(f % 10)];
      assert r[..1] == [DigitChar(f / 10)];
      assert r[..1][..0] == [];
      assert DigitsValue(r[..1]) == DigitValue(r[0]);
      r
  }

  /** Digits, a point at the first '.' and digits parse as the decimal they
      spell. */
  lemma PointFound(t: string, i: nat, whole: string, frac: string)
    requires Find(t, ".") == Some(i) && whole == t[..i] && frac == t[i + 1..]
    requires AllDigits(whole) && AllDigits(frac) && |whole| + |frac| > 0
    ensures ParsePlainDecimal(t) == Some(Decimal(DigitsValue(whole) * Pow10(|frac|) + DigitsValue(frac), |frac|))
  {
  }

  /** The first '.' after a run of digits is found where it stands. */
  lemma FindPointAt(t: string, i: nat)
    requires i < |t| && t[i] == '.' && AllDigits(t[..i])
    ensures Find(t, ".") == Some(i)
  {
    forall j | 0 <= j < i
      ensures !OccursAt(t, ".", j)
    {
      assert t[j..j + 1][0] == t[..i][j];
      assert "."[0] == '.';
    }
    assert t[i..i + 1] == ".";
    assert OccursAt(t, ".", i);
  }

  /** A string of digits and points parses the same with or without stripping. */
  lemma PlainIsTrimmed(t: string)
    requires |t| > 0 && (IsDigit(t[0]) || t[0] == '.') && (IsDigit(t[|t| - 1]) || t[|t| - 1] == '.')
    ensures ParseDecimal(t) == ParsePlainDecimal(t)
  {
    StripTrimmed(t);
  }

  /** The printed hundredths read back as the same number. */
  lemma HundredthsRoundTrip(h: nat)
    ensures ParseDecimal(HundredthsText(h)).Some?
    ensures SameValue(ParseDecimal(HundredthsText(h)).value, Decimal(h, 2))
  {
    var t := HundredthsText(h);
    var i := HundredthsShape(h);
    PlainIsTrimmed(t);
    PointedHundredths(t, i, h);
  }

  /** Where the point stands in the printed hundredths, and what surrounds it. */
  lemma HundredthsShape(h: nat) returns (i: nat)
    ensures var t := HundredthsText(h);
      && i < |t| && t[i] == '.' && t[..i] == NatToString(h / 100)
      && t[i + 1..] == FractionDigits(h % 100)
      && IsDigit(t[0]) && IsDigit(t[|t| - 1])
  {
    var whole := NatToString(h / 100);
    var frac := FractionDigits(h % 100);
    var t := HundredthsText(h);
    i := |whole|;
    assert t[..i] == whole && t[i] == '.' && t[i + 1..] == frac;
    assert t[0] == whole[0] && t[|t| - 1] == frac[|frac| - 1];
  }

  lemma PointedHundredths(t: string, i: nat, h: nat)
    requires i < |t| && t[i] == '.' && t[..i] == NatToString(h / 100)
    requires t[i + 1..] == FractionDigits(h % 100)
    ensures ParsePlainDecimal(t).Some? && SameValue(ParsePlainDecimal(t).value, Decimal(h, 2))
  {
    FindPointAt(t, i);
    PointFound(t, i, t[..i], t[i + 1..]);
    HundredthsValue(h / 100, h % 100);
  }

  /** The whole part and the printed hundredths denote `100 * w + f`
      hundredths. */
  lemma HundredthsValue(w: nat, f: nat)
    requires f < 100
    ensures var frac := FractionDigits(f);
      SameValue(Decimal(w * Pow10(|frac|) + DigitsValue(frac), |frac|), Decimal(100 * w + f, 2))
  {
    var frac := FractionDigits(f);
    var v := DigitsValue(frac);
    if |frac| == 1 {
      assert Pow10(1) == 10 && Pow10(2) == 100;
      assert (w * 10 + v) * 100 == (100 * w + f) * 10;
    } else {
      assert Pow10(2) == 100;
    }
  }
}

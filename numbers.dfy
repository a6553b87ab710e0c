/**
 * The float arithmetic the pipeline does on counts: a part/whole percentage,
 * Python's "{:,.2f}" formatting of it, and pandas' `astype(float)` reading the
 * formatted text back. All the values involved are ratios of non-negative
 * counts, so a float is NaN, +inf or a non-negative real; rounding error of
 * binary floating point is not modelled.
 */
module Numbers {
  import opened Wrappers

  type NonNegReal = x: real | x >= 0.0

  /** A float64 as it arises from non-negative counts. */
  datatype Float = NaN | Infinity | Finite(value: NonNegReal)

  /**
   * `part / whole * 100` on pandas columns: a null part stays NaN, 0/0 is NaN
   * and a positive part over 0 is +inf (no exception is raised).
   */
  function Percent(part: Option<nat>, whole: nat): (f: Float)
    ensures f.Finite? <==> part.Some? && whole > 0
    ensures f.Finite? ==> f.value * (whole as real) == 100.0 * (part.value as real)
    ensures f.Infinity? <==> part.Some? && whole == 0 && part.value > 0
    ensures part.Some? && part.value <= whole && whole > 0 ==> 0.0 <= f.value <= 100.0
  {
    match part
    case None => NaN
    case Some(p) =>
      if whole > 0 then
        var x := p as real / whole as real * 100.0;
        assert x * (whole as real) == 100.0 * (p as real);
        Finite(x)
      else if p == 0 then NaN
      else Infinity
  }

  /** `x` rounded to a whole number of hundredths, halves rounded up. */
  function RoundCents(x: NonNegReal): (c: nat)
    ensures (c as real) - 0.5 <= 100.0 * x < (c as real) + 0.5
  {
    (100.0 * x + 0.5).Floor
  }

  /** A float rounded to two decimals, as "{:.2f}" shows it. */
  function Rounded(f: Float): (g: Float)
    ensures g.Finite? <==> f.Finite?
    ensures !f.Finite? ==> g == f
    ensures f.Finite? ==> f.value - 0.005 < g.value <= f.value + 0.005
    ensures f.Finite? ==> 100.0 * g.value == RoundCents(f.value) as real
  {
    match f
    case Finite(x) => Finite(RoundCents(x) as real / 100.0)
    case other => other
  }

  predicate IsDigit(c: char) { '0' <= c <= '9' }

  predicate AllDigits(s: string) { forall i :: 0 <= i < |s| ==> IsDigit(s[i]) }

  function DigitChar(d: nat): (c: char)
    requires d < 10
    ensures IsDigit(c)
  {
    ('0' as int + d) as char
  }

  function DigitValue(c: char): nat
    requires IsDigit(c)
  {
    c as int - '0' as int
  }

  /** The decimal digits of `n`, without leading zeros. */
  function Digits(n: nat): (s: string)
    ensures |s| >= 1 && AllDigits(s)
  {
    if n < 10 then [DigitChar(n)] else Digits(n / 10) + [DigitChar(n % 10)]
  }

  /** The value of a string of decimal digits. */
  function DigitsValue(s: string): nat
    requires AllDigits(s)
  {
    if s == [] then 0 else DigitsValue(s[..|s| - 1]) * 10 + DigitValue(s[|s| - 1])
  }

  lemma {:induction false} DigitsRoundTrip(n: nat)
    ensures DigitsValue(Digits(n)) == n
  {
    if n >= 10 {
      var s := Digits(n);
      assert s[..|s| - 1] == Digits(n / 10);
      DigitsRoundTrip(n / 10);
    }
  }

  /** `n`, `0 <= n < 10^width`, written with exactly `width` digits. */
  function Padded(n: nat, width: nat): (s: string)
    ensures |s| == width && AllDigits(s)
  {
    if width == 0 then [] else Padded(n / 10, width - 1) + [DigitChar(n % 10)]
  }

  function Pow10(n: nat): (p: nat)
    ensures p >= 1
  {
    if n == 0 then 1 else 10 * Pow10(n - 1)
  }

  lemma {:induction false} PaddedRoundTrip(n: nat, width: nat)
    requires n < Pow10(width)
    ensures DigitsValue(Padded(n, width)) == n
  {
    if width > 0 {
      var s := Padded(n, width);
      assert s[..|s| - 1] == Padded(n / 10, width - 1);
      PaddedRoundTrip(n / 10, width - 1);
    }
  }

  /** `n` with a comma between each group of three digits, as the "," format option writes it. */
  function Grouped(n: nat): (s: string)
    ensures |s| >= 1
    ensures forall i :: 0 <= i < |s| ==> IsDigit(s[i]) || s[i] == ','
    ensures n < 1000 ==> s == Digits(n)
    ensures n >= 1000 ==> !AllDigits(s)
  {
    if n < 1000 then Digits(n)
    else
      var high := Grouped(n / 1000);
      var s := high + "," + Padded(n % 1000, 3);
      assert s[|high|] == ',';
      s
  }

  /** Python's `"{:,.2f}".format(f)`: "nan", "inf", or the value to two decimals, thousands grouped. */
  function FormatFixed2(f: Float): string
  {
    match f
    case NaN => "nan"
    case Infinity => "inf"
    case Finite(x) =>
      var c := RoundCents(x);
      Grouped(c / 100) + "." + Padded(c % 100, 2)
  }

  /** The position of the first `c` in `s`, or |s| when there is none. */
  function IndexOf(s: string, c: char): (i: nat)
    ensures i <= |s|
    ensures i < |s| ==> s[i] == c
    ensures forall j :: 0 <= j < i ==> s[j] != c
  {
    if s == [] then 0 else if s[0] == c then 0 else 1 + IndexOf(s[1..], c)
  }

  /**
   * pandas' `astype(float)` on one text cell: "nan", "inf", or digits with an
   * optional decimal point; anything else (a thousands comma among them)
   * raises "could not convert string to float".
   */
  function ParseFloat(s: string): Result<Float, string>
  {
    if s == "nan" then Success(NaN)
    else if s == "inf" then Success(Infinity)
    else ParseDecimalText(s)
  }

  /** The number written `whole.frac`. */
  function DecimalOf(whole: string, frac: string): Float
    requires AllDigits(whole) && AllDigits(frac)
  {
    Finite(DigitsValue(whole) as real + DigitsValue(frac) as real / Pow10(|frac|) as real)
  }

  /** The decimal branch of ParseFloat: digits, then optionally '.' and more digits. */
  function ParseDecimalText(s: string): Result<Float, string>
  {
    var i := IndexOf(s, '.');
    var whole := s[..i];
    var frac := if i < |s| then s[i + 1..] else [];
    if whole != [] && AllDigits(whole) && AllDigits(frac) then
      Success(DecimalOf(whole, frac))
    else
      Failure("could not convert string to float: '" + s + "'")
  }

  /** Reading "whole.frac" back, where `whole` is digits and commas. */
  lemma ParseDecimal(whole: string, frac: string)
    requires |whole| >= 1 && forall i :: 0 <= i < |whole| ==> IsDigit(whole[i]) || whole[i] == ','
    requires AllDigits(frac)
    ensures AllDigits(whole) ==> ParseFloat(whole + "." + frac) == Success(DecimalOf(whole, frac))
    ensures !AllDigits(whole) ==> ParseFloat(whole + "." + frac).Failure?
  {
    var s := whole + "." + frac;
    assert s != "nan" && s != "inf" by {
      assert s[0] == whole[0];
      assert !IsDigit('n') && !IsDigit('i');
    }
    IndexOfDot(whole, frac);
    assert s[..|whole|] == whole;
    assert s[|whole| + 1..] == frac;
  }

  lemma IndexOfDot(whole: string, frac: string)
    requires forall i :: 0 <= i < |whole| ==> whole[i] != '.'
    ensures IndexOf(whole + "." + frac, '.') == |whole|
  {
    var s := whole + "." + frac;
    assert s[|whole|] == '.';
    forall j | 0 <= j < |whole| ensures s[j] != '.' {
      assert s[j] == whole[j];
    }
  }

  /** A whole number of cents below 1,000.00, written as "{:,.2f}" writes it, reads back as that many hundredths. */
  lemma CentsText(c: nat)
    requires c < 100000
    ensures ParseFloat(Grouped(c / 100) + "." + Padded(c % 100, 2)) == Success(Finite((c as real) / 100.0))
  {
    var w, r := c / 100, c % 100;
    ParseDecimal(Grouped(w), Padded(r, 2));
    DigitsRoundTrip(w);
    PaddedRoundTrip(r, 2);
    assert Pow10(2) == 100;
    assert (w as real) + (r as real) / 100.0 == (c as real) / 100.0 by {
      assert c == 100 * w + r;
    }
  }

  /** From 1,000.00 on, the text holds a thousands comma and cannot be read back. */
  lemma LargeCentsText(c: nat)
    requires c >= 100000
    ensures ParseFloat(Grouped(c / 100) + "." + Padded(c % 100, 2)).Failure?
  {
    assert c / 100 >= 1000;
    ParseDecimal(Grouped(c / 100), Padded(c % 100, 2));
  }

  /**
   * Reading back what "{:,.2f}" wrote gives the value rounded to two decimals,
   * unless the value reached 1,000.00: then the thousands comma makes the
   * conversion fail.
   */
  lemma ParseFormatted(f: Float)
    ensures !(f.Finite? && RoundCents(f.value) >= 100000) ==> ParseFloat(FormatFixed2(f)) == Success(Rounded(f))
    ensures f.Finite? && RoundCents(f.value) >= 100000 ==> ParseFloat(FormatFixed2(f)).Failure?
  {
    if f.Finite? {
      var c := RoundCents(f.value);
      assert FormatFixed2(f) == Grouped(c / 100) + "." + Padded(c % 100, 2);
      if c < 100000 {
        CentsText(c);
        assert Rounded(f) == Finite((c as real) / 100.0);
      } else {
        LargeCentsText(c);
      }
    }
  }
}

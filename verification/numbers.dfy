/** Numeric cell values and the text-to-number coercion behind
    `pd.to_numeric(..., errors="coerce")`, restricted to plain decimal numerals. */
module Numbers {
  import opened Wrappers
  import opened Strings

  /** An exact decimal: the value `units / 10^scale`. */
  datatype Number = Decimal(units: int, scale: nat)

  function Pow10(k: nat): (p: nat)
    ensures p >= 1
  {
    if k == 0 then 1 else 10 * Pow10(k - 1)
  }

  /** The number is numerically equal to the integer `n` (Python's `x == n` on a float). */
  predicate ValueIs(x: Number, n: int) {
    x.units == n * Pow10(x.scale)
  }

  /** A number equals at most one integer. */
  lemma ValueIsUnique(x: Number, m: int, n: int)
    requires ValueIs(x, m) && ValueIs(x, n)
    ensures m == n
  {
    var p := Pow10(x.scale);
    assert (m - n) * p == 0;
  }

  predicate IsDigit(c: char) {
    '0' <= c <= '9'
  }

  predicate AllDigits(s: string) {
    forall i :: 0 <= i < |s| ==> IsDigit(s[i])
  }

  /** Characters that can appear in a numeral this model accepts. */
  predicate IsNumeralChar(c: char) {
    IsDigit(c) || c == '-' || c == '+' || c == '.'
  }

  /** The value of a string of decimal digits, most significant first. */
  function DigitsValue(s: string): nat
    requires AllDigits(s)
    decreases |s|
  {
    if |s| == 0 then 0 else 10 * DigitsValue(s[..|s| - 1]) + ((s[|s| - 1] as int) - ('0' as int))
  }

  /** The decimal digits of `n`, left-padded with zeros to at least `width` digits. */
  function Digits(n: nat, width: nat): (s: string)
    ensures AllDigits(s)
    ensures |s| >= 1 && |s| >= width
    decreases n, width
  {
    var last := [(('0' as int) + n % 10) as char];
    if n < 10 && width <= 1 then last
    else Digits(n / 10, if width == 0 then 0 else width - 1) + last
  }

  /** Reading the digits of `n` back gives `n`, whatever the padding. */
  lemma {:induction false} DigitsValueOfDigits(n: nat, width: nat)
    ensures DigitsValue(Digits(n, width)) == n
    decreases n, width
  {
    var last := [(('0' as int) + n % 10) as char];
    if !(n < 10 && width <= 1) {
      var w := if width == 0 then 0 else width - 1;
      var front := Digits(n / 10, w);
      DigitsValueOfDigits(n / 10, w);
      var s := front + last;
      assert s[..|s| - 1] == front;
    }
  }

  /** A canonical textual form of a number: optional `-`, digits, and a decimal
      point followed by exactly `scale` digits when `scale > 0`. */
  function Render(x: Number): (s: string)
    ensures |s| >= 1
    ensures forall i :: 0 <= i < |s| ==> IsNumeralChar(s[i])
  {
    var body := UnsignedText(x);
    if x.units < 0 then "-" + body else body
  }

  function Magnitude(x: Number): nat {
    if x.units < 0 then -x.units else x.units
  }

  /** The rendered number without its sign. */
  function UnsignedText(x: Number): (s: string)
    ensures |s| >= 1 && IsDigit(s[0])
    ensures forall i :: 0 <= i < |s| ==> IsDigit(s[i]) || s[i] == '.'
  {
    PointAt(Digits(Magnitude(x), x.scale + 1), x.scale)
  }

  /** Digits with a decimal point inserted before the last `scale` of them. */
  function PointAt(ds: string, scale: nat): (s: string)
    requires |ds| >= scale + 1
  {
    if scale == 0 then ds else ds[..|ds| - scale] + "." + ds[|ds| - scale..]
  }

  /** The digits-and-point part of a numeral, read as `(magnitude, scale)`:
      digits with at most one decimal point and at least one digit. */
  function ParseUnsigned(body: string): (r: Option<(nat, nat)>)
    ensures r.Some? ==> |body| >= 1 && forall i :: 0 <= i < |body| ==> IsDigit(body[i]) || body[i] == '.'
    ensures |body| >= 1 && AllDigits(body) ==> r == Some((DigitsValue(body), 0))
  {
    var parts := Split(body, '.');
    if |parts| > 2 then None
    else
      var whole := parts[0];
      var fraction := if |parts| == 2 then parts[1] else "";
      if AllDigits(whole) && AllDigits(fraction) && |whole| + |fraction| >= 1 then
        assert |parts| == 2 ==> Join(parts, '.') == whole + "." + fraction;
        JoinSplit(body, '.');
        assert |body| >= 1 && AllDigits(body) ==> '.' !in body && whole + fraction == body;
        Some((DigitsValue(whole + fraction), |fraction|))
      else
        None
  }

  /** Coerce a cell's text to a number: an optional sign followed by an unsigned
      numeral. Anything else fails (`None`). */
  function ParseNumber(s: string): (r: Option<Number>)
    ensures r.Some? ==> |s| >= 1 && forall i :: 0 <= i < |s| ==> IsNumeralChar(s[i])
    ensures |s| >= 1 && AllDigits(s) ==> r == Some(Decimal(DigitsValue(s), 0))
  {
    var negative := |s| > 0 && s[0] == '-';
    var body := if |s| > 0 && (s[0] == '-' || s[0] == '+') then s[1..] else s;
    match ParseUnsigned(body)
    case None => None
    case Some((magnitude, scale)) =>
      var units: int := if negative then 0 - magnitude as int else magnitude;
      Some(Decimal(units, scale))
  }

  /** Digits with a point inserted read back as the same digits and scale. */
  lemma ParseUnsignedPointAt(ds: string, scale: nat)
    requires AllDigits(ds) && |ds| >= scale + 1
    ensures ParseUnsigned(PointAt(ds, scale)) == Some((DigitsValue(ds), scale))
  {
    if scale > 0 {
      var whole, fraction := ds[..|ds| - scale], ds[|ds| - scale..];
      DigitsSlices(ds, |ds| - scale);
      SplitAfterPiece(whole, fraction, '.');
      assert PointAt(ds, scale) == whole + ['.'] + fraction;
      ParseWholeAndFraction(PointAt(ds, scale), whole, fraction);
    }
  }

  lemma DigitsSlices(ds: string, k: nat)
    requires AllDigits(ds) && k <= |ds|
    ensures AllDigits(ds[..k]) && AllDigits(ds[k..]) && ds[..k] + ds[k..] == ds
    ensures '.' !in ds[..k] && '.' !in ds[k..]
  {
    assert forall i :: 0 <= i < k ==> ds[..k][i] == ds[i];
    assert forall i :: 0 <= i < |ds| - k ==> ds[k..][i] == ds[k + i];
  }

  /** A numeral made of a whole part and a fraction part around one point. */
  lemma ParseWholeAndFraction(body: string, whole: string, fraction: string)
    requires Split(body, '.') == [whole, fraction]
    requires AllDigits(whole) && AllDigits(fraction) && |whole| >= 1
    ensures ParseUnsigned(body) == Some((DigitsValue(whole + fraction), |fraction|))
  {
  }

  /** How the sign in front of an unsigned numeral is read. */
  lemma ParseSigned(body: string, magnitude: nat, scale: nat)
    requires |body| >= 1 && IsDigit(body[0])
    requires ParseUnsigned(body) == Some((magnitude, scale))
    ensures ParseNumber(body) == Some(Decimal(magnitude, scale))
    ensures ParseNumber("-" + body) == Some(Decimal(0 - magnitude as int, scale))
  {
    assert ("-" + body)[1..] == body;
  }

  lemma ParseUnsignedText(x: Number)
    ensures ParseUnsigned(UnsignedText(x)) == Some((Magnitude(x), x.scale))
  {
    var ds := Digits(Magnitude(x), x.scale + 1);
    DigitsValueOfDigits(Magnitude(x), x.scale + 1);
    ParseUnsignedPointAt(ds, x.scale);
  }

  /** Parsing the rendered form of any number gives that number back. */
  lemma ParseRender(x: Number)
    ensures ParseNumber(Render(x)) == Some(x)
  {
    ParseUnsignedText(x);
    ParseSigned(UnsignedText(x), Magnitude(x), x.scale);
  }
}

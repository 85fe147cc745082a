/** The number syntax of Python's `float(text)` restricted to decimal
    literals: optional surrounding whitespace, an optional sign, digits with
    an optional decimal point, and an optional exponent. */
module Numeric {
  import opened Wrappers
  import opened Text

  /** Python's `float(text)` seen as a partial function: `None` where it
      raises `ValueError`. The loaders take it as a parameter; `ParseFloat`
      below is one instance of it. */
  type Parser = string -> Option<real>

  predicate IsDigit(c: char) {
    '0' <= c <= '9'
  }

  predicate AllDigits(s: string) {
    forall i :: 0 <= i < |s| ==> IsDigit(s[i])
  }

  predicate HasDigit(s: string) {
    exists i :: 0 <= i < |s| && IsDigit(s[i])
  }

  function DigitValue(c: char): (r: nat)
    requires IsDigit(c)
    ensures r <= 9
  {
    (c as int) - ('0' as int)
  }

  /** The natural number a run of decimal digits denotes. */
  function DigitsValue(s: string): (r: nat)
    requires AllDigits(s)
  {
    if |s| == 0 then 0 else 10 * DigitsValue(s[..|s| - 1]) + DigitValue(s[|s| - 1])
  }

  function Pow10(n: nat): (r: real)
    ensures r >= 1.0
  {
    if n == 0 then 1.0 else 10.0 * Pow10(n - 1)
  }

  /** The factor 10^e for a possibly negative exponent. */
  function Scale(e: int): (r: real)
    ensures r > 0.0
  {
    if e >= 0 then Pow10(e) else 1.0 / Pow10(-e)
  }

  predicate IsPoint(c: char) {
    c == '.'
  }

  predicate IsExponentMark(c: char) {
    c == 'e' || c == 'E'
  }

  predicate IsSign(c: char) {
    c == '+' || c == '-'
  }

  /** Index of the first decimal point in `s`, or `|s|` when there is none. */
  function FindPoint(s: string): (k: nat)
    ensures k <= |s|
    ensures forall i :: 0 <= i < k ==> !IsPoint(s[i])
    ensures k < |s| ==> IsPoint(s[k])
  {
    if |s| == 0 then 0 else if IsPoint(s[0]) then 0 else 1 + FindPoint(s[1..])
  }

  /** Index of the first exponent mark in `s`, or `|s|` when there is none. */
  function FindExponentMark(s: string): (k: nat)
    ensures k <= |s|
    ensures forall i :: 0 <= i < k ==> !IsExponentMark(s[i])
    ensures k < |s| ==> IsExponentMark(s[k])
  {
    if |s| == 0 then 0 else if IsExponentMark(s[0]) then 0 else 1 + FindExponentMark(s[1..])
  }

  lemma HasDigitSlice(s: string, lo: nat, hi: nat)
    requires lo <= hi <= |s|
    requires HasDigit(s[lo..hi])
    ensures HasDigit(s)
  {
    var i :| 0 <= i < hi - lo && IsDigit(s[lo..hi][i]);
    assert IsDigit(s[lo + i]);
  }

  lemma HasDigitStrip(s: string)
    requires HasDigit(Strip(s))
    ensures HasDigit(s)
  {
    StripSlice(s);
    var k, t := LeadingSpace(s), Strip(s);
    assert s[k..k + |t|] == t;
    HasDigitSlice(s, k, k + |t|);
  }

  /** The value of the digits after a decimal point. */
  function FractionValue(frac: string): (r: real)
    requires AllDigits(frac)
    ensures r >= 0.0
  {
    if |frac| == 0 then 0.0 else DigitsValue(frac) as real / Pow10(|frac|)
  }

  /** `digits[.digits]` or `.digits`, with at least one digit in all. */
  function ParseMantissa(u: string): (r: Option<real>)
    ensures r.Some? ==> r.value >= 0.0
    ensures r.Some? ==> HasDigit(u)
  {
    var d := FindPoint(u);
    var whole := u[..d];
    var frac := if d < |u| then u[d + 1..] else [];
    if AllDigits(whole) && AllDigits(frac) && |whole| + |frac| > 0 then
      assert HasDigit(u) by {
        if |whole| > 0 {
          assert IsDigit(u[0]);
        } else {
          assert IsDigit(u[d + 1]);
        }
      }
      Some(DigitsValue(whole) as real + FractionValue(frac))
    else None
  }

  /** `[sign]digits`: the exponent after the `e`. */
  function ParseExponent(u: string): (r: Option<int>)
    ensures r.Some? ==> HasDigit(u)
  {
    if |u| > 0 && IsSign(u[0]) then
      var digits := u[1..];
      if |digits| > 0 && AllDigits(digits) then
        assert IsDigit(u[1]);
        Some(if u[0] == '-' then -(DigitsValue(digits) as int) else DigitsValue(digits))
      else None
    else if |u| > 0 && AllDigits(u) then
      assert IsDigit(u[0]);
      Some(DigitsValue(u))
    else None
  }

  lemma NonNegativeProduct(a: real, b: real)
    requires a >= 0.0 && b >= 0.0
    ensures a * b >= 0.0
  {
  }

  /** A mantissa followed by an optional exponent part. */
  function ParseUnsigned(u: string): (r: Option<real>)
    ensures r.Some? ==> r.value >= 0.0
    ensures r.Some? ==> HasDigit(u)
  {
    var k := FindExponentMark(u);
    match ParseMantissa(u[..k])
    case None => None
    case Some(m) =>
      HasDigitSlice(u, 0, k);
      if k == |u| then Some(m)
      else match ParseExponent(u[k + 1..])
        case None => None
        case Some(e) =>
          var scale := Scale(e);
          assert m * scale >= 0.0 by { NonNegativeProduct(m, scale); }
          Some(m * scale)
  }

  /** An optionally signed literal with no surrounding whitespace. */
  function ParseLiteral(t: string): (r: Option<real>)
    ensures r.Some? ==> HasDigit(t)
  {
    if |t| > 0 && IsSign(t[0]) then
      var p := ParseUnsigned(t[1..]);
      if p.None? then None
      else
        assert HasDigit(t) by { assert t[1..|t|] == t[1..]; HasDigitSlice(t, 1, |t|); }
        Some(if t[0] == '-' then -p.value else p.value)
    else ParseUnsigned(t)
  }

  /** Python's `float(text)` on decimal literals: `None` where `float`
      raises `ValueError`. Blank text never parses, and neither does text
      without a digit. */
  function ParseFloat(s: string): (r: Option<real>)
    ensures IsBlank(s) ==> r == None
    ensures r.Some? ==> HasDigit(s)
  {
    var r := ParseLiteral(Strip(s));
    if r.Some? then HasDigitStrip(s); r else r
  }

  /** Surrounding whitespace does not change what a text parses to. */
  lemma ParseFloatIgnoresStrip(s: string)
    ensures ParseFloat(Strip(s)) == ParseFloat(s)
  {
    StripIdempotent(s);
  }

  /** The decimal rendering of a natural number, as Python's `str(n)`. */
  function Render(n: nat): (r: string)
    ensures |r| > 0 && AllDigits(r)
  {
    var d := [('0' as int + n % 10) as char];
    if n < 10 then d else Render(n / 10) + d
  }

  lemma {:induction false} RenderValue(n: nat)
    ensures DigitsValue(Render(n)) == n
  {
    var r := Render(n);
    if n >= 10 {
      RenderValue(n / 10);
      assert r[..|r| - 1] == Render(n / 10);
    }
  }

  /** A non-empty run of digits is a mantissa denoting its value. */
  lemma MantissaOfDigits(u: string)
    requires |u| > 0 && AllDigits(u)
    ensures ParseMantissa(u) == Some(DigitsValue(u) as real)
  {
    var d := FindPoint(u);
    assert forall i :: 0 <= i < |u| ==> !IsPoint(u[i]);
    assert d == |u|;
    assert u[..d] == u;
  }

  /** A non-empty run of digits parses to the number it denotes. */
  lemma ParseDigits(u: string)
    requires |u| > 0 && AllDigits(u)
    ensures ParseUnsigned(u) == Some(DigitsValue(u) as real)
  {
    var k := FindExponentMark(u);
    assert k == |u|;
    assert u[..k] == u;
    MantissaOfDigits(u);
  }

  /** Reading back a rendered whole number gives that number, with or
      without a leading minus sign. */
  lemma ParseRenderRoundTrip(n: nat)
    ensures ParseFloat(Render(n)) == Some(n as real)
    ensures ParseFloat("-" + Render(n)) == Some(-(n as real))
  {
    ParseRendered(n);
    ParseNegated(n);
  }

  lemma ParseRendered(n: nat)
    ensures ParseFloat(Render(n)) == Some(n as real)
  {
    RenderValue(n);
    ParseDigitText(Render(n));
  }

  lemma ParseNegated(n: nat)
    ensures ParseFloat("-" + Render(n)) == Some(-(n as real))
  {
    var r := Render(n);
    RenderValue(n);
    var neg := "-" + r;
    assert neg[1..] == r;
    ParseNegatedDigitText(neg);
  }

  /** A run of digits with nothing around it reads as its value. */
  lemma ParseDigitText(u: string)
    requires |u| > 0 && AllDigits(u)
    ensures ParseFloat(u) == Some(DigitsValue(u) as real)
  {
    ParseDigits(u);
    assert ParseLiteral(u) == Some(DigitsValue(u) as real);
    StripUnchanged(u);
  }

  /** A minus sign and a run of digits read as the negated value. */
  lemma ParseNegatedDigitText(t: string)
    requires |t| > 1 && t[0] == '-' && AllDigits(t[1..])
    ensures ParseFloat(t) == Some(-(DigitsValue(t[1..]) as real))
  {
    ParseDigits(t[1..]);
    NegatedLiteral(t, DigitsValue(t[1..]) as real);
    assert t[|t| - 1] == t[1..][|t| - 2];
    StripUnchanged(t);
  }

  /** A minus sign in front of an unsigned literal negates its value. */
  lemma NegatedLiteral(t: string, v: real)
    requires |t| > 0 && t[0] == '-' && ParseUnsigned(t[1..]) == Some(v)
    ensures ParseLiteral(t) == Some(-v)
  {
  }
}

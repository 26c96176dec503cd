/** The amount column: Rust's `f64::from_str` decimal grammar read exactly
    into a `real`, and the `{:.2}` fixed-point text of an amount.

    Binary floating point is not modelled: a parsed literal keeps its exact
    decimal value instead of being rounded to the nearest `f64`. */
module Amounts {
  import opened Wrappers
  import opened Text

  function Pow10(n: nat): (r: nat)
    ensures r >= 1
  {
    if n == 0 then 1 else 10 * Pow10(n - 1)
  }

  /** Ten to the power `e`, for any integer `e`. */
  function Scale(e: int): (r: real)
    ensures r > 0.0
  {
    if e >= 0 then Pow10(e) as real else 1.0 / Pow10(-e) as real
  }

  /** The longest prefix of `s` made of ASCII digits. */
  function LeadingDigits(s: string): (d: string)
    ensures AllDigits(d) && StartsWith(s, d)
    ensures |d| < |s| ==> !IsDigit(s[|d|])
  {
    if |s| == 0 || !IsDigit(s[0]) then ""
    else
      var rest := LeadingDigits(s[1..]);
      assert ([s[0]] + rest)[1..] == rest;
      [s[0]] + rest
  }

  /** The exponent after `e`/`E`: an optional sign and at least one digit. */
  function ParseExponent(s: string): (r: Option<int>)
    ensures r.Some? ==> |s| >= 1
  {
    var negative := |s| > 0 && s[0] == '-';
    var digits := if |s| > 0 && (s[0] == '+' || s[0] == '-') then s[1..] else s;
    if |digits| == 0 || !AllDigits(digits) then None
    else Some(if negative then 0 - DigitsValue(digits) else DigitsValue(digits))
  }

  /** An unsigned decimal literal: digits, an optional `.` with digits (at
      least one digit overall), then an optional exponent; nothing may follow. */
  function ParseUnsignedDecimal(s: string): Option<real> {
    var whole := LeadingDigits(s);
    AfterWholePart(whole, s[|whole|..])
  }

  /** Continues after the whole-number digits: an optional fraction. */
  function AfterWholePart(whole: string, rest: string): Option<real>
    requires AllDigits(whole)
  {
    if |rest| > 0 && rest[0] == '.' then
      var fraction := LeadingDigits(rest[1..]);
      AfterFractionPart(whole, fraction, rest[1 + |fraction|..])
    else AfterFractionPart(whole, "", rest)
  }

  /** The value of `whole.fraction`. */
  function Mantissa(whole: string, fraction: string): real
    requires AllDigits(whole) && AllDigits(fraction)
  {
    DigitsValue(whole) as real + DigitsValue(fraction) as real / Pow10(|fraction|) as real
  }

  /** Appending digits shifts the digits before them left by as many
      places. */
  lemma {:induction false} DigitsValueAppend(a: string, b: string)
    requires AllDigits(a) && AllDigits(b)
    ensures AllDigits(a + b)
    ensures DigitsValue(a + b) == DigitsValue(a) * Pow10(|b|) + DigitsValue(b)
    decreases |b|
  {
    assert forall k :: 0 <= k < |b| ==> (a + b)[|a| + k] == b[k];
    if |b| == 0 {
      assert a + b == a;
    } else {
      var init := b[..|b| - 1];
      assert (a + b)[..|a + b| - 1] == a + init;
      DigitsValueAppend(a, init);
      var x, y, p, c := DigitsValue(a), DigitsValue(init), Pow10(|init|), DigitValue(b[|b| - 1]);
      assert DigitsValue(a + b) == 10 * DigitsValue(a + init) + c;
      assert DigitsValue(b) == 10 * y + c;
      assert Pow10(|b|) == 10 * p;
      ShiftByTen(x, p, y, c);
    }
  }

  lemma ShiftByTen(x: int, p: int, y: int, c: int)
    ensures 10 * (x * p + y) + c == x * (10 * p) + (10 * y + c)
  {
  }

  /** `whole.fraction` denotes all its digits read as one number, divided by
      ten to the number of fraction digits: `12.5` is `125 / 10`. */
  lemma MantissaIsShiftedDigits(whole: string, fraction: string)
    requires AllDigits(whole) && AllDigits(fraction)
    ensures AllDigits(whole + fraction)
    ensures Mantissa(whole, fraction) == DigitsValue(whole + fraction) as real / Pow10(|fraction|) as real
  {
    DigitsValueAppend(whole, fraction);
    var w, f, q := DigitsValue(whole), DigitsValue(fraction), Pow10(|fraction|);
    DivideShifted(w, f, q);
  }

  lemma DivideShifted(w: nat, f: nat, q: nat)
    requires q > 0
    ensures (w * q + f) as real / q as real == w as real + f as real / q as real
  {
    assert (w * q + f) as real == w as real * q as real + f as real;
  }

  /** Continues after the fraction: an optional exponent, then the end. */
  function AfterFractionPart(whole: string, fraction: string, rest: string): Option<real>
    requires AllDigits(whole) && AllDigits(fraction)
  {
    if |whole| + |fraction| == 0 then None
    else if |rest| == 0 then Some(Mantissa(whole, fraction))
    else if rest[0] == 'e' || rest[0] == 'E' then
      match ParseExponent(rest[1..])
      case None => None
      case Some(e) => Some(Mantissa(whole, fraction) * Scale(e))
    else None
  }

  /** `f64::from_str` on a finite decimal literal: an optional sign, then an
      unsigned decimal literal. */
  function ParseAmount(s: string): (r: Option<real>)
    ensures r.Some? ==> var b := SplitSign(s).1;
      |b| > 0 && (IsDigit(b[0]) || (|b| > 1 && b[0] == '.' && IsDigit(b[1])))
  {
    var (negative, body) := SplitSign(s);
    UnsignedDecimalStart(body);
    if negative then Negated(ParseBody(body)) else ParseBody(body)
  }

  /** An accepted literal starts with a digit, or with `.` and a digit. */
  lemma UnsignedDecimalStart(s: string)
    ensures ParseUnsignedDecimal(s).Some? ==>
      |s| > 0 && (IsDigit(s[0]) || (|s| > 1 && s[0] == '.' && IsDigit(s[1])))
  {
    var whole := LeadingDigits(s);
    var rest := s[|whole|..];
    if ParseUnsignedDecimal(s).Some? && |whole| == 0 {
      assert rest == s;
      if |rest| > 0 && rest[0] == '.' {
        var fraction := LeadingDigits(rest[1..]);
        assert |fraction| > 0;
        assert fraction[0] == s[1];
      }
    }
  }

  /** A leading `-` or `+` and the text after it. */
  function SplitSign(s: string): (r: (bool, string))
    ensures r.0 <==> |s| > 0 && s[0] == '-'
    ensures r.1 == if |s| > 0 && (s[0] == '-' || s[0] == '+') then s[1..] else s
  {
    if |s| > 0 && s[0] == '-' then (true, s[1..])
    else if |s| > 0 && s[0] == '+' then (false, s[1..])
    else (false, s)
  }

  /** The literal after the sign, which must not be empty. */
  function ParseBody(body: string): Option<real> {
    if |body| == 0 then None else ParseUnsignedDecimal(body)
  }

  function Negated(r: Option<real>): Option<real> {
    match r
    case None => None
    case Some(v) => Some(-v)
  }

  /** The text of Rust's `ParseFloatError`. */
  function ParseFloatErrorText(s: string): string {
    if |s| == 0 then "cannot parse float from empty string" else "invalid float literal"
  }

  // ---------------------------------------------------------------------------
  // Fixed-point text
  // ---------------------------------------------------------------------------

  function Abs(x: real): (r: real)
    ensures r >= 0.0 && (r == x || r == -x)
  {
    if x < 0.0 then -x else x
  }

  /** Rounds to the nearest integer, ties to the even neighbour. */
  function RoundHalfEven(v: real): (n: nat)
    requires v >= 0.0
    ensures n as real - 0.5 <= v <= n as real + 0.5
  {
    var f := v.Floor;
    var frac := v - f as real;
    if frac > 0.5 || (frac == 0.5 && f % 2 == 1) then f + 1 else f
  }

  /** The magnitude of `x` in whole hundredths, as `{:.2}` rounds it. */
  function Cents(x: real): nat {
    RoundHalfEven(Abs(x) * 100.0)
  }

  /** `format!("{:.2}", x)`: a `-` for a negative value, the whole part, a
      point and exactly two decimals. */
  function FormatAmount(x: real): (s: string)
    ensures |s| >= 4
    ensures s[0] == '-' <==> x < 0.0
  {
    SignedCentsText(x < 0.0, Cents(x))
  }

  /** A count of hundredths as `whole.dd`, with a `-` in front if `negative`. */
  function SignedCentsText(negative: bool, c: nat): (s: string)
    ensures |s| >= 4
  {
    if negative then "-" + CentsText(c) else CentsText(c)
  }

  function SignedCentsValue(negative: bool, c: nat): real {
    if negative then -(c as real / 100.0) else c as real / 100.0
  }

  /** A count of hundredths as `whole.dd`. */
  function CentsText(c: nat): (s: string)
    ensures |s| >= 4 && IsDigit(s[0])
  {
    ZeroPadLength(c % 100, 2);
    NatToDigits(c / 100) + "." + ZeroPad(c % 100, 2)
  }

  /** The value `FormatAmount(x)` denotes: `x` rounded to hundredths. */
  function RoundedAmount(x: real): real {
    SignedCentsValue(x < 0.0, Cents(x))
  }

  /** Rounding to hundredths moves an amount by at most half a hundredth. */
  lemma RoundedAmountIsClose(x: real)
    ensures Abs(RoundedAmount(x) - x) <= 0.005
  {
    var c := Cents(x);
    assert c as real - 0.5 <= Abs(x) * 100.0 <= c as real + 0.5;
  }

  lemma {:induction false} LeadingDigitsOfJoin(a: string, rest: string)
    requires AllDigits(a)
    requires |rest| == 0 || !IsDigit(rest[0])
    ensures LeadingDigits(a + rest) == a
    decreases |a|
  {
    if |a| > 0 {
      assert (a + rest)[1..] == a[1..] + rest;
      LeadingDigitsOfJoin(a[1..], rest);
      assert a == [a[0]] + a[1..];
    } else {
      assert a + rest == rest;
    }
  }

  /** Digits, a point and digits read as that fixed-point number. */
  lemma ParsePointed(d: string, p: string)
    requires AllDigits(d) && AllDigits(p) && |d| >= 1
    ensures ParseUnsignedDecimal(d + "." + p) == Some(Mantissa(d, p))
  {
    var s := d + "." + p;
    assert LeadingDigits(s) == d by {
      LeadingDigitsOfJoin(d, "." + p);
      assert s == d + ("." + p);
    }
    assert s[|d|..] == "." + p;
    assert AfterWholePart(d, "." + p) == AfterFractionPart(d, p, "") by {
      assert ("." + p)[1..] == p;
      LeadingDigitsOfJoin(p, "");
      assert p + "" == p;
    }
  }

  lemma MantissaOfCents(q: nat, r: nat)
    requires r < 100
    ensures Mantissa(NatToDigits(q), ZeroPad(r, 2)) == (100 * q + r) as real / 100.0
  {
    ZeroPadLength(r, 2);
    NatToDigitsValue(q);
    ZeroPadValue(r, 2);
    assert Pow10(2) == 100;
  }

  /** The unsigned part of the text reads back as the count of hundredths. */
  lemma ParseCentsText(c: nat)
    ensures ParseBody(CentsText(c)) == Some(c as real / 100.0)
  {
    ParsePointed(NatToDigits(c / 100), ZeroPad(c % 100, 2));
    MantissaOfCents(c / 100, c % 100);
  }

  /** A literal that starts with a digit reads as its unsigned value, and
      with a `-` in front as the negated value. */
  lemma SignedLiteral(body: string)
    requires |body| > 0 && IsDigit(body[0])
    ensures ParseAmount(body) == ParseBody(body)
    ensures ParseAmount("-" + body) == Negated(ParseBody(body))
  {
    var s := "-" + body;
    assert s[1..] == body;
    assert SplitSign(body) == (false, body);
    assert SplitSign(s) == (true, body);
  }

  /** The text of a non-negative count of hundredths reads back as its
      value. */
  lemma ParseCentsLiteral(c: nat)
    ensures ParseAmount(CentsText(c)) == Some(c as real / 100.0)
  {
    ParseCentsText(c);
    LiteralOfCents(c, c as real / 100.0);
  }

  /** With a `-` in front, it reads as the negated value. */
  lemma ParseNegativeCentsLiteral(c: nat)
    ensures ParseAmount("-" + CentsText(c)) == Some(-(c as real / 100.0))
  {
    ParseCentsText(c);
    LiteralOfCents(c, c as real / 100.0);
  }

  lemma LiteralOfCents(c: nat, v: real)
    requires ParseBody(CentsText(c)) == Some(v)
    ensures ParseAmount(CentsText(c)) == Some(v)
    ensures ParseAmount("-" + CentsText(c)) == Some(-v)
  {
    LiteralOfBody(CentsText(c), v);
  }

  lemma LiteralOfBody(body: string, v: real)
    requires |body| > 0 && IsDigit(body[0])
    requires ParseBody(body) == Some(v)
    ensures ParseAmount(body) == Some(v)
    ensures ParseAmount("-" + body) == Some(-v)
  {
    SignedLiteral(body);
    NegatedSome(ParseBody(body), v);
  }

  lemma NegatedSome(r: Option<real>, v: real)
    requires r == Some(v)
    ensures Negated(r) == Some(-v)
  {
  }

  /** Reading back the `{:.2}` text of an amount yields the amount rounded to
      hundredths. */
  lemma FormatAmountRoundTrip(x: real)
    ensures ParseAmount(FormatAmount(x)) == Some(RoundedAmount(x))
  {
    SignedCentsRoundTrip(x < 0.0, Cents(x));
  }

  lemma SignedCentsRoundTrip(negative: bool, c: nat)
    ensures ParseAmount(SignedCentsText(negative, c)) == Some(SignedCentsValue(negative, c))
  {
    if negative {
      ParseNegativeCentsLiteral(c);
    } else {
      ParseCentsLiteral(c);
    }
  }

  /** The text is never empty, and it reads as zero only for amounts within
      half a hundredth of zero. */
  lemma FormatAmountNonEmpty(x: real)
    ensures |FormatAmount(x)| > 0
    ensures Cents(x) == 0 <==> Abs(x) * 100.0 <= 0.5
  {
  }
}

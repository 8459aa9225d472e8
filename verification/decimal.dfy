/** The decimal numerals `float()` turns into numbers, restricted to plain
    decimal notation: an optional sign, then digits with an optional
    fraction (`3`, `3.5`, `+3.`, `-.5`). Exponents, `_` separators, `inf`
    and `nan` are outside this grammar. */
module Decimal {
  import opened Wrappers

  predicate IsDigit(c: char) {
    '0' <= c <= '9'
  }

  predicate AllDigits(s: string) {
    forall i :: 0 <= i < |s| ==> IsDigit(s[i])
  }

  /** The number a string of decimal digits denotes (0 for no digits). */
  function DigitsValue(s: string): (v: nat)
    requires AllDigits(s)
    ensures |s| > 0 ==> v < Pow10(|s|)
    decreases |s|
  {
    if |s| == 0 then 0 else DigitsValue(s[..|s| - 1]) * 10 + (s[|s| - 1] as int - '0' as int)
  }

  function Pow10(n: nat): (p: nat)
    ensures p >= 1
  {
    if n == 0 then 1 else 10 * Pow10(n - 1)
  }

  datatype Sign = Unsigned | Plus | Minus

  /** The parts of a numeral: its sign, the digits before the point and, when
      there is a point, the digits after it. */
  datatype Numeral = Numeral(sign: Sign, whole: string, fraction: Option<string>)

  /** A numeral is well formed when its parts are digits and it has at least
      one digit. */
  predicate Valid(n: Numeral) {
    && AllDigits(n.whole)
    && (n.fraction.Some? ==> AllDigits(n.fraction.value))
    && (|n.whole| > 0 || (n.fraction.Some? && |n.fraction.value| > 0))
  }

  function SignText(s: Sign): string {
    match s
    case Unsigned => ""
    case Plus => "+"
    case Minus => "-"
  }

  function FractionText(fraction: Option<string>): string {
    match fraction
    case None => ""
    case Some(f) => "." + f
  }

  /** The text of a numeral. */
  function Render(n: Numeral): string {
    SignText(n.sign) + (n.whole + FractionText(n.fraction))
  }

  /** The number a well-formed numeral denotes. */
  function Value(n: Numeral): real
    requires Valid(n)
  {
    var magnitude := DigitsValue(n.whole) as real
      + (if n.fraction.Some? then DigitsValue(n.fraction.value) as real / Pow10(|n.fraction.value|) as real else 0.0);
    if n.sign == Minus then -magnitude else magnitude
  }

  /** A trailing zero in the fraction does not change the value: `3.50`
      denotes what `3.5` denotes. */
  lemma FractionTrailingZero(n: Numeral, f: string)
    requires Valid(n) && n.fraction == Some(f)
    ensures Valid(n.(fraction := Some(f + "0")))
    ensures Value(n.(fraction := Some(f + "0"))) == Value(n)
  {
    var g := f + "0";
    assert g[..|f|] == f;
    assert DigitsValue(g) == DigitsValue(f) * 10;
    assert Pow10(|g|) == Pow10(|f|) * 10;
    ScaleRatio(DigitsValue(f), Pow10(|f|));
  }

  lemma ScaleRatio(a: nat, b: nat)
    requires b > 0
    ensures (a * 10) as real / (b * 10) as real == a as real / b as real
  {
  }

  /** The digits before the point are the integer part of the magnitude:
      the fraction adds less than one. */
  lemma WholePart(n: Numeral)
    requires Valid(n)
    ensures var m := if n.sign == Minus then -Value(n) else Value(n);
      DigitsValue(n.whole) as real <= m < DigitsValue(n.whole) as real + 1.0
  {
    if n.fraction.Some? && |n.fraction.value| > 0 {
      var f := n.fraction.value;
      FractionBelowOne(DigitsValue(f), Pow10(|f|));
    }
  }

  lemma FractionBelowOne(d: nat, p: nat)
    requires d < p
    ensures 0.0 <= d as real / p as real < 1.0
  {
  }

  /** The length of the longest all-digit prefix. */
  function LeadingDigits(s: string): (k: nat)
    ensures k <= |s| && AllDigits(s[..k])
    ensures k < |s| ==> !IsDigit(s[k])
    decreases |s|
  {
    if |s| > 0 && IsDigit(s[0]) then 1 + LeadingDigits(s[1..]) else 0
  }

  /** The sign a numeral text starts with. */
  function SignOf(t: string): Sign {
    if |t| > 0 && t[0] == '+' then Plus else if |t| > 0 && t[0] == '-' then Minus else Unsigned
  }

  /** Reads a whole string as a numeral; none when it is not one. */
  function ParseNumeral(t: string): (r: Option<Numeral>)
    ensures r.Some? ==> Valid(r.value) && Render(r.value) == t
  {
    var sign := SignOf(t);
    SignSplits(t);
    ParseUnsigned(sign, t[|SignText(sign)|..])
  }

  lemma SignSplits(t: string)
    ensures |SignText(SignOf(t))| <= |t|
    ensures t == SignText(SignOf(t)) + t[|SignText(SignOf(t))|..]
  {
  }

  /** Reads the text after the sign: digits, then optionally `.` and digits. */
  function ParseUnsigned(sign: Sign, body: string): (r: Option<Numeral>)
    ensures r.Some? ==> Valid(r.value) && r.value.sign == sign
    ensures r.Some? ==> r.value.whole + FractionText(r.value.fraction) == body
  {
    var k := LeadingDigits(body);
    var whole := body[..k];
    var rest := body[k..];
    assert body == whole + rest;
    if |rest| == 0 then
      if k > 0 then Some(Numeral(sign, whole, None)) else None
    else if rest[0] == '.' && AllDigits(rest[1..]) && (k > 0 || |rest| > 1) then
      assert rest == "." + rest[1..];
      Some(Numeral(sign, whole, Some(rest[1..])))
    else None
  }

  /** Every well-formed numeral is read back from its text. */
  lemma ParseRender(n: Numeral)
    requires Valid(n)
    ensures ParseNumeral(Render(n)) == Some(n)
  {
    var body := n.whole + FractionText(n.fraction);
    SignOfRender(n.sign, body);
    assert Render(n)[|SignText(n.sign)|..] == body;
    ParseUnsignedRender(n);
  }

  lemma SignOfRender(s: Sign, body: string)
    requires |body| > 0 && body[0] != '+' && body[0] != '-'
    ensures SignOf(SignText(s) + body) == s
  {
    if s == Unsigned {
      assert (SignText(s) + body)[0] == body[0];
    }
  }

  lemma ParseUnsignedRender(n: Numeral)
    requires Valid(n)
    ensures ParseUnsigned(n.sign, n.whole + FractionText(n.fraction)) == Some(n)
  {
    var tail := FractionText(n.fraction);
    var body := n.whole + tail;
    LeadingDigitsOf(n.whole, tail);
    assert body[..|n.whole|] == n.whole;
    assert body[|n.whole|..] == tail;
    if n.fraction.Some? {
      assert tail[1..] == n.fraction.value;
    }
  }

  lemma LeadingDigitsOf(w: string, tail: string)
    requires AllDigits(w)
    requires |tail| > 0 ==> !IsDigit(tail[0])
    ensures LeadingDigits(w + tail) == |w|
    decreases |w|
  {
    if |w| > 0 {
      assert (w + tail)[1..] == w[1..] + tail;
      LeadingDigitsOf(w[1..], tail);
    } else {
      assert w + tail == tail;
    }
  }

  /** `float(t)` restricted to this grammar. */
  function ParseDecimal(t: string): (r: Option<real>)
    ensures r.Some? ==> exists n :: Valid(n) && Render(n) == t && Value(n) == r.value
  {
    match ParseNumeral(t)
    case Some(n) => Some(Value(n))
    case None => None
  }

  /** The text of every well-formed numeral is read as its value. */
  lemma ParseDecimalOfRender(n: Numeral)
    requires Valid(n)
    ensures ParseDecimal(Render(n)) == Some(Value(n))
  {
    ParseRender(n);
  }
}

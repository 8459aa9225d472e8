/** `parse_gpa` (cvs_gpa.py lines 48-70): from an optional cell text to an
    optional GPA in [0.0, 5.0]. */
module GpaValue {
  import opened Wrappers
  import opened Text
  import opened Decimal

  const MinGpa: real := 0.0
  const MaxGpa: real := 5.0

  predicate InRange(g: real) {
    MinGpa <= g <= MaxGpa
  }

  /** A number as `float()` may return it: finite, infinite, or NaN. */
  datatype Float = Finite(v: real) | PosInf | NegInf | NaN

  /** IEEE comparison `g < c` against a finite constant: false for NaN. */
  predicate Below(g: Float, c: real) {
    match g
    case Finite(x) => x < c
    case NegInf => true
    case PosInf => false
    case NaN => false
  }

  /** IEEE comparison `g > c` against a finite constant: false for NaN. */
  predicate Above(g: Float, c: real) {
    match g
    case Finite(x) => x > c
    case PosInf => true
    case NegInf => false
    case NaN => false
  }

  /** A float that is a number between MinGpa and MaxGpa. */
  predicate FloatInRange(g: Float) {
    g.Finite? && InRange(g.v)
  }

  /** The sanity check as written: reject when `gpa < 0.0 or gpa > 5.0`. */
  function BoundsCheckAsWritten(g: Float): (r: Option<Float>)
    ensures r.Some? ==> r.value == g
    ensures g.Finite? ==> (r.Some? <==> InRange(g.v))
  {
    if Below(g, MinGpa) || Above(g, MaxGpa) then None else Some(g)
  }

  /** As written, the check lets NaN through: both comparisons are false, so
      a cell reading "nan" would be accepted and turn the average into NaN. */
  lemma BoundsCheckAdmitsNaN()
    ensures BoundsCheckAsWritten(NaN) == Some(NaN) && !FloatInRange(NaN)
  {
  }

  /** The sanity check as intended: keep exactly the numbers in
      [MinGpa, MaxGpa]. */
  function BoundsCheck(g: Float): (r: Option<real>)
    ensures r.Some? <==> FloatInRange(g)
    ensures r.Some? ==> g == Finite(r.value)
  {
    if g.Finite? && !(g.v < MinGpa || g.v > MaxGpa) then Some(g.v) else None
  }

  /** The intended check differs from the written one only on NaN. */
  lemma BoundsCheckDiffersOnlyOnNaN(g: Float)
    ensures g != NaN ==> (BoundsCheck(g).Some? <==> BoundsCheckAsWritten(g).Some?)
    ensures BoundsCheck(NaN).None? && BoundsCheckAsWritten(NaN).Some?
  {
  }

  /** `parse_gpa`: absent input, blank text, text that is not a numeral and
      numbers outside [0.0, 5.0] all give none. */
  function ParseGpa(value: Option<string>): (r: Option<real>)
    ensures value.None? ==> r.None?
    ensures value.Some? && AllSpace(value.value) ==> r.None?
    ensures r.Some? ==> InRange(r.value)
    ensures r.Some? ==> exists n :: Valid(n) && Render(n) == Strip(value.value) && Value(n) == r.value
  {
    match value
    case None => None
    case Some(v) =>
      StripOfBlank(v);
      var raw := Strip(v);
      if raw == "" then None
      else
        match ParseDecimal(raw)
        case None => None
        case Some(g) => BoundsCheck(Finite(g))
  }

  lemma StripOfBlank(s: string)
    ensures AllSpace(s) ==> Strip(s) == ""
  {
    if AllSpace(s) {
      StripPadded(s, "", "");
      assert s + "" + "" == s;
    }
  }

  /** The text of a numeral neither starts nor ends with whitespace. */
  lemma RenderIsSolid(n: Numeral)
    requires Valid(n)
    ensures var t := Render(n); |t| > 0 && !IsSpace(t[0]) && !IsSpace(t[|t| - 1])
  {
    var t := Render(n);
    var body := n.whole + FractionText(n.fraction);
    assert t == SignText(n.sign) + body;
    if n.fraction.Some? {
      var f := n.fraction.value;
      assert t[|t| - 1] == (if |f| > 0 then f[|f| - 1] else '.');
    } else {
      assert t[|t| - 1] == n.whole[|n.whole| - 1];
    }
    if n.sign == Unsigned {
      assert t[0] == body[0];
      assert body[0] == (if |n.whole| > 0 then n.whole[0] else '.');
    }
  }

  /** The full behaviour on numerals: a numeral, with any whitespace around
      it, gives its value when that lies in [0.0, 5.0] and none otherwise
      (so negative values and values above 5.0 are rejected). */
  lemma ParseGpaOfNumeral(p: string, n: Numeral, q: string)
    requires AllSpace(p) && AllSpace(q) && Valid(n)
    ensures ParseGpa(Some(p + Render(n) + q)) == (if InRange(Value(n)) then Some(Value(n)) else None)
  {
    RenderIsSolid(n);
    StripPadded(p, Render(n), q);
    ParseRender(n);
  }

  /** Whitespace around the cell text never changes the result. */
  lemma ParseGpaIgnoresPadding(p: string, s: string, q: string)
    requires AllSpace(p) && AllSpace(q)
    ensures ParseGpa(Some(p + s + q)) == ParseGpa(Some(s))
  {
    StripIgnoresPadding(p, s, q);
  }

  /** Neither whitespace around the cell text nor a trailing zero in the
      fraction changes the result: `' 3.50 '` is read as `'3.5'` is. */
  lemma ParseGpaIgnoresTrailingZero(p: string, n: Numeral, f: string, q: string)
    requires AllSpace(p) && AllSpace(q) && Valid(n) && n.fraction == Some(f)
    ensures ParseGpa(Some(p + Render(n.(fraction := Some(f + "0"))) + q)) == ParseGpa(Some(Render(n)))
  {
    FractionTrailingZero(n, f);
    ParseGpaOfNumeral(p, n.(fraction := Some(f + "0")), q);
    ParseGpaOfNumeral("", n, "");
    assert "" + Render(n) + "" == Render(n);
  }

  /** Text whose stripped form is not a numeral gives none. */
  lemma ParseGpaRejectsNonNumerals(s: string)
    requires ParseNumeral(Strip(s)).None?
    ensures ParseGpa(Some(s)) == None
  {
  }
}

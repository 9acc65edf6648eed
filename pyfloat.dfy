/** Python's `float(text)`, `str(float)` and `round(x, n)` on the number model:
    finite floats are exact reals, so parsing yields the exact decimal value
    and rounding is exact round-half-to-even. */
module PyFloat {
  import opened Wrappers
  import opened Numbers
  import opened PyText

  function Pow10(n: nat): (p: real)
    ensures p >= 1.0
  {
    if n == 0 then 1.0 else 10.0 * Pow10(n - 1)
  }

  /** ASCII lower-casing, as far as the special words need it. */
  function Lower(s: string): (r: string)
    ensures |r| == |s|
  {
    seq(|s|, i requires 0 <= i < |s| => if 'A' <= s[i] <= 'Z' then (s[i] as int + 32) as char else s[i])
  }

  /** The first index of `c` in `s`, or |s| when it does not occur. */
  function IndexOf(s: string, c: char): (i: nat)
    ensures i <= |s|
    ensures i < |s| ==> s[i] == c
    ensures forall k :: 0 <= k < i ==> s[k] != c
  {
    if s == [] then 0
    else if s[0] == c then 0
    else 1 + IndexOf(s[1..], c)
  }

  /** The index of the exponent marker `e` or `E`, or |s|. */
  function ExpIndex(s: string): (i: nat)
    ensures i <= |s|
    ensures i < |s| ==> s[i] == 'e' || s[i] == 'E'
    ensures forall k :: 0 <= k < i ==> s[k] != 'e' && s[k] != 'E'
  {
    if s == [] then 0
    else if s[0] == 'e' || s[0] == 'E' then 0
    else 1 + ExpIndex(s[1..])
  }

  /** `digits [. [digits]]` or `. digits`: the value of a mantissa. */
  function ParseMantissa(m: string): Option<real> {
    var dot := IndexOf(m, '.');
    var whole := m[..dot];
    var frac := if dot < |m| then m[dot + 1..] else [];
    if !AllDigits(whole) || !AllDigits(frac) || (whole == [] && frac == []) then None
    else Some(DigitsValue(whole) as real + FracValue(frac))
  }

  /** The value of the digits after a decimal point: ".d1d2..." */
  function FracValue(s: string): (v: real)
    requires AllDigits(s)
    ensures 0.0 <= v <= 1.0
  {
    if s == [] then 0.0 else (DigitValue(s[0]) as real + FracValue(s[1..])) / 10.0
  }

  /** `[sign] digits`: the value of an exponent. */
  function ParseExponent(e: string): Option<int> {
    var neg := |e| > 0 && e[0] == '-';
    var digits := if |e| > 0 && (e[0] == '+' || e[0] == '-') then e[1..] else e;
    if digits == [] || !AllDigits(digits) then None
    else Some(if neg then -(DigitsValue(digits) as int) else DigitsValue(digits))
  }

  function Scale(m: real, e: int): real {
    if e >= 0 then m * Pow10(e) else m / Pow10(-e)
  }

  /** An unsigned decimal literal with an optional exponent. */
  function ParseDecimal(body: string): Option<real> {
    var k := ExpIndex(body);
    match ParseMantissa(body[..k])
    case None => None
    case Some(m) =>
      if k == |body| then Some(m)
      else match ParseExponent(body[k + 1..])
        case None => None
        case Some(e) => Some(Scale(m, e))
  }

  /** `float(text)`: surrounding whitespace is ignored, then an optional sign
      and either a decimal literal or one of the words `inf`, `infinity`, `nan`
      in any case. `None` stands for the ValueError raised on anything else. */
  function ParseFloat(text: string): (r: Option<Num>)
    ensures Strip(text) == [] ==> r == None
  {
    ParseStripped(Strip(text))
  }

  /** `float()` of a text with no surrounding whitespace. */
  function ParseStripped(t: string): (r: Option<Num>)
    ensures t == [] ==> r == None
  {
    var signed := |t| > 0 && (t[0] == '+' || t[0] == '-');
    var neg := signed && t[0] == '-';
    ParseBody(neg, if signed then t[1..] else t)
  }

  /** The special words `inf`, `infinity` and `nan` all start with one of
      these letters, in either case. */
  predicate WordStart(body: string) {
    |body| > 0 && (body[0] == 'i' || body[0] == 'I' || body[0] == 'n' || body[0] == 'N')
  }

  /** `float()` of what follows the sign. */
  function ParseBody(neg: bool, body: string): (r: Option<Num>)
    ensures body == [] ==> r == None
  {
    var word := if WordStart(body) then Lower(body) else "";
    if word == "inf" || word == "infinity" then Some(if neg then NegInf else PosInf)
    else if word == "nan" then Some(NaN)
    else match ParseDecimal(body)
      case None => None
      case Some(v) => Some(Finite(if neg then -v else v))
  }

  /** The digits after the decimal point of a fraction 0 <= f < 1, at most
      `places` of them, without trailing zeros. */
  function FracDigits(f: real, places: nat): (s: string)
    requires 0.0 <= f < 1.0
    ensures AllDigits(s)
    ensures f == 0.0 ==> s == []
    decreases places
  {
    if places == 0 || f == 0.0 then []
    else
      var d := (f * 10.0).Floor;
      assert 0 <= d < 10;
      [DigitChar(d)] + FracDigits(f * 10.0 - d as real, places - 1)
  }

  /** `str(x)` / `repr(x)` for a float. Integral values print as `N.0`; other
      finite values print their decimal expansion (up to 17 places). */
  function FloatText(x: Num): (s: string)
    ensures s != []
  {
    match x
    case NaN => "nan"
    case PosInf => "inf"
    case NegInf => "-inf"
    case Finite(r) =>
      if r == r.Floor as real then IntText(r.Floor) + ".0"
      else
        var a := if r < 0.0 then -r else r;
        var whole := a.Floor;
        (if r < 0.0 then "-" else "") + NatText(whole) + "." + FracDigits(a - whole as real, 17)
  }

  /** The first '.' after a run of digits is the one that ends it. */
  lemma IndexOfDotAfterDigits(d: string, rest: string)
    requires AllDigits(d) && rest != [] && rest[0] == '.'
    ensures IndexOf(d + rest, '.') == |d|
  {
    var m := d + rest;
    assert m[|d|] == '.';
    assert forall k :: 0 <= k < |d| ==> m[k] == d[k];
  }

  lemma MantissaOfParts(m: string, d: string)
    requires d != [] && AllDigits(d)
    requires IndexOf(m, '.') == |d| && |m| == |d| + 2 && m[..|d|] == d && m[|d| + 1..] == "0"
    ensures ParseMantissa(m) == Some(DigitsValue(d) as real)
  {
    assert FracValue("0") == 0.0 by { assert "0"[1..] == []; }
  }

  lemma MantissaPointZero(d: string)
    requires d != [] && AllDigits(d)
    ensures ParseMantissa(d + ".0") == Some(DigitsValue(d) as real)
  {
    var m := d + ".0";
    IndexOfDotAfterDigits(d, ".0");
    assert m[..|d|] == d;
    assert m[|d| + 1..] == "0";
    MantissaOfParts(m, d);
  }

  /** A run of digits followed by ".0" is a decimal literal with the
      digits' value. */
  lemma DigitsPointZero(d: string)
    requires d != [] && AllDigits(d)
    ensures ParseDecimal(d + ".0") == Some(DigitsValue(d) as real)
  {
    var body := d + ".0";
    assert forall k :: 0 <= k < |body| ==> body[k] != 'e' && body[k] != 'E' by {
      assert forall k :: 0 <= k < |d| ==> body[k] == d[k];
    }
    assert ExpIndex(body) == |body|;
    assert body[..|body|] == body;
    MantissaPointZero(d);
  }

  /** A text with no whitespace at either end is its own `strip()`. */
  lemma StripNoSpace(s: string)
    requires s != [] && !IsSpace(s[0]) && !IsSpace(s[|s| - 1])
    ensures Strip(s) == s
  {
    assert LeadingEnd(s) == 0;
    assert TrailingStart(s, 0) == |s|;
  }

  /** A text starting with a digit is not one of the special words. */
  lemma DigitNotWord(s: string)
    requires s != [] && IsDigit(s[0])
    ensures !WordStart(s)
  {
  }

  lemma ParseNatText(i: int)
    requires i >= 0
    ensures ParseFloat(IntText(i) + ".0") == Some(Finite(i as real))
  {
    var d := NatText(i);
    assert IntText(i) + ".0" == d + ".0";
    NatTextRoundTrip(i);
    ParseDigitsPointZero(d);
  }

  /** `float(d + ".0")` for a run of digits `d`. */
  lemma ParseDigitsPointZero(d: string)
    requires d != [] && AllDigits(d)
    ensures ParseFloat(d + ".0") == Some(Finite(DigitsValue(d) as real))
  {
    var s := d + ".0";
    assert s[0] == d[0];
    StripNoSpace(s);
    ParseFloatStripped(s);
    assert ParseStripped(s) == ParseBody(false, s);
    DigitNotWord(s);
    DigitsPointZero(d);
    ParseBodyDecimal(false, s, DigitsValue(d) as real);
  }

  /** A negative whole number prints as a minus sign before the text of
      its magnitude, and that text meets the conditions of `ParseMinus`,
      so `float()` reads it as the negation of the magnitude. */
  lemma NegWholeText(n: nat)
    requires n > 0
    ensures var s := IntText(n) + ".0";
      IntText(-(n as int)) + ".0" == "-" + s
      && s != [] && Strip(s) == s && s[0] != '+' && s[0] != '-'
  {
    var d := NatText(n);
    var s := d + ".0";
    assert s[0] == d[0] && s[|s| - 1] == '0';
    StripNoSpace(s);
  }

  /** The value of a parse with a minus sign in front. */
  function Negated(r: Option<Num>): Option<Num> {
    match r
    case Some(Finite(v)) => Some(Finite(-v))
    case Some(PosInf) => Some(NegInf)
    case Some(NegInf) => Some(PosInf)
    case _ => r
  }

  /** A minus sign in front of a stripped, unsigned text negates what it
      reads as. */
  lemma ParseMinus(s: string)
    requires s != [] && Strip(s) == s && s[0] != '+' && s[0] != '-'
    ensures ParseFloat("-" + s) == Negated(ParseFloat(s))
  {
    var m := "-" + s;
    assert m[|m| - 1] == s[|s| - 1] && m[0] == '-' && !IsSpace(s[|s| - 1]);
    StripNoSpace(m);
    assert m[1..] == s;
    ParseFloatStripped(m);
    ParseFloatStripped(s);
    ParseStrippedSigned(m);
    assert ParseStripped(s) == ParseBody(false, s);
    ParseBodySign(s);
  }

  lemma ParseBodySign(b: string)
    ensures ParseBody(true, b) == Negated(ParseBody(false, b))
  {
  }

  /** An already stripped text is read as it stands. */
  lemma ParseFloatStripped(s: string)
    requires Strip(s) == s
    ensures ParseFloat(s) == ParseStripped(s)
  {
  }

  /** A leading sign is taken off before the body is read. */
  lemma ParseStrippedSigned(s: string)
    requires |s| > 1 && s[0] == '-'
    ensures ParseStripped(s) == ParseBody(true, s[1..])
  {
  }

  /** A body that is not one of the words is read as a decimal literal. */
  lemma ParseBodyDecimal(neg: bool, b: string, v: real)
    requires !WordStart(b)
    requires ParseDecimal(b) == Some(v)
    ensures ParseBody(neg, b) == Some(Finite(if neg then -v else v))
  {
  }

  lemma ParseSpecialWords()
    ensures ParseFloat("nan") == Some(NaN)
    ensures ParseFloat("inf") == Some(PosInf)
    ensures ParseFloat("-inf") == Some(NegInf)
  {
    StripNoSpace("nan");
    StripNoSpace("inf");
    StripNoSpace("-inf");
    assert "-inf"[1..] == "inf";
    assert ParseBody(false, "nan") == Some(NaN) by { assert Lower("nan") == "nan"; }
    assert ParseBody(false, "inf") == Some(PosInf) by { assert Lower("inf") == "inf"; }
    assert ParseBody(true, "inf") == Some(NegInf) by { assert Lower("inf") == "inf"; }
  }

  /** Printing a float and reading it back gives the same value, for the
      non-negative integral values and the three special values. */
  lemma FloatTextRoundTrip(x: Num)
    requires !x.Finite? || (x.r >= 0.0 && x.r == x.r.Floor as real)
    ensures ParseFloat(FloatText(x)) == Some(x)
  {
    if x.Finite? {
      assert FloatText(x) == IntText(x.r.Floor) + ".0";
      ParseNatText(x.r.Floor);
    } else {
      ParseSpecialWords();
    }
  }

  /** Round half to even to an integer. */
  function RoundHalfEven(x: real): (n: int)
    ensures x - 0.5 <= n as real <= x + 0.5
    ensures n as real - x == 0.5 || x - n as real == 0.5 ==> n % 2 == 0
  {
    var f := x.Floor;
    var d := x - f as real;
    if d < 0.5 then f
    else if d > 0.5 then f + 1
    else if f % 2 == 0 then f
    else f + 1
  }

  /** An integer rounds to itself. */
  lemma RoundHalfEvenInt(n: int)
    ensures RoundHalfEven(n as real) == n
  {
  }

  /** Rounding is monotone. */
  lemma RoundHalfEvenMonotone(x: real, y: real)
    requires x <= y
    ensures RoundHalfEven(x) <= RoundHalfEven(y)
  {
  }

  /** `round(x, 2)`. */
  function Round2(x: real): (r: real)
    ensures x - 0.005 <= r <= x + 0.005
  {
    RoundHalfEven(x * 100.0) as real / 100.0
  }

  /** `round(x, 6)`. */
  function Round6(x: real): (r: real)
    ensures x - 0.0000005 <= r <= x + 0.0000005
  {
    RoundHalfEven(x * 1000000.0) as real / 1000000.0
  }

  /** Rounding to two places twice changes nothing more. */
  lemma Round2Idempotent(x: real)
    ensures Round2(Round2(x)) == Round2(x)
  {
    var n := RoundHalfEven(x * 100.0);
    assert Round2(x) * 100.0 == n as real;
    RoundHalfEvenInt(n);
  }

  /** Rounding to six places twice changes nothing more. */
  lemma Round6Idempotent(x: real)
    ensures Round6(Round6(x)) == Round6(x)
  {
    var n := RoundHalfEven(x * 1000000.0);
    assert Round6(x) * 1000000.0 == n as real;
    RoundHalfEvenInt(n);
  }

  /** Rounding to six places keeps the order of scores. */
  lemma Round6Monotone(x: real, y: real)
    requires x <= y
    ensures Round6(x) <= Round6(y)
  {
    RoundHalfEvenMonotone(x * 1000000.0, y * 1000000.0);
  }
}

/**
 * Python's `float(text)` for the text forms a temperature reading can take:
 * surrounding whitespace, an optional sign, then a decimal literal
 * (`digits[.digits][e[sign]digits]`, `.digits...`, single underscores
 * between digits), or `inf` / `infinity` / `nan` in any letter case.
 * Anything else is the ValueError, modelled as `None`.
 *
 * Finite values are kept as exact reals rather than rounded to the nearest
 * binary double.
 */
module Numbers {
  import opened Wrappers
  import opened Text

  /** A float value: finite, infinite with a sign, or not-a-number. */
  datatype Float = Finite(value: real) | Infinity(negative: bool) | NaN

  /** The first position of a character from `cs`, or `|s|` when there is none. */
  function IndexOfAny(s: string, cs: set<char>): (r: nat)
    ensures r <= |s|
    ensures r < |s| ==> s[r] in cs
    ensures forall j :: 0 <= j < r ==> s[j] !in cs
    decreases |s|
  {
    if s == [] then 0
    else if s[0] in cs then 0
    else 1 + IndexOfAny(s[1..], cs)
  }

  /**
   * A digit part of a Python number literal: at least one digit, and an
   * underscore only directly between two digits.
   */
  predicate IsDigitPart(s: string) {
    |s| > 0 && forall i :: 0 <= i < |s| ==> DigitPartCharAt(s, i)
  }

  /** Position `i` holds a digit, or an underscore with a digit on each side. */
  predicate DigitPartCharAt(s: string, i: int)
    requires 0 <= i < |s|
  {
    IsAsciiDigit(s[i]) || (s[i] == '_' && 0 < i < |s| - 1 && IsAsciiDigit(s[i - 1]) && IsAsciiDigit(s[i + 1]))
  }

  /** The digits of a digit part, underscores removed. */
  function DropUnderscores(s: string): (r: string)
    requires forall i :: 0 <= i < |s| ==> IsAsciiDigit(s[i]) || s[i] == '_'
    ensures AllDigits(r) && |r| <= |s|
    ensures AllDigits(s) ==> r == s
    decreases |s|
  {
    if s == [] then []
    else if s[0] == '_' then DropUnderscores(s[1..])
    else [s[0]] + DropUnderscores(s[1..])
  }

  /** `m * 10^k` as an exact real, for any integer `k`. */
  function Scale(m: nat, k: int): real {
    if k >= 0 then (m * Pow10(k)) as real else m as real / Pow10(-k) as real
  }

  /** The mantissa `int[.frac]` or `.frac`: its digits' value and the number of fraction digits. */
  function ParseMantissa(s: string): (r: Option<(nat, nat)>)
    ensures r.Some? && '.' !in s ==> IsDigitPart(s) && r.value.1 == 0
  {
    var dot := IndexOfAny(s, {'.'});
    if dot == |s| then
      if IsDigitPart(s) then Some((DigitPartValue(s), 0)) else None
    else
      var whole := s[..dot];
      var frac := s[dot + 1..];
      if (whole == [] && frac == []) || (whole != [] && !IsDigitPart(whole)) || (frac != [] && !IsDigitPart(frac)) then None
      else
        var w := if whole == [] then [] else Digits(whole);
        var f := if frac == [] then [] else Digits(frac);
        Some((DigitsValue(w + f), |f|))
  }

  /** Every character of a digit part is a digit or an underscore. */
  lemma DigitPartChars(s: string)
    requires IsDigitPart(s)
    ensures forall i :: 0 <= i < |s| ==> IsAsciiDigit(s[i]) || s[i] == '_'
  {
    forall i | 0 <= i < |s|
      ensures IsAsciiDigit(s[i]) || s[i] == '_'
    {
      assert DigitPartCharAt(s, i);
    }
  }

  /** The value of a digit part. */
  function DigitPartValue(s: string): nat
    requires IsDigitPart(s)
  {
    DigitsValue(Digits(s))
  }

  /** The digits of a digit part. */
  function Digits(s: string): (r: string)
    requires IsDigitPart(s)
    ensures AllDigits(r)
    ensures AllDigits(s) ==> r == s
  {
    DigitPartChars(s);
    DropUnderscores(s)
  }

  /** The exponent after `e`/`E`: an optional sign, then a digit part. */
  function ParseExponent(s: string): (r: Option<int>)
    ensures r.Some? ==> |s| > 0
  {
    if s == [] then None
    else
      var digits := if s[0] == '+' || s[0] == '-' then s[1..] else s;
      if !IsDigitPart(digits) then None
      else if s[0] == '-' then Some(-(DigitPartValue(digits) as int))
      else Some(DigitPartValue(digits))
  }

  /** A decimal literal without sign or surrounding whitespace: `mantissa[e exponent]`. */
  function ParseDecimal(s: string): (r: Option<real>)
  {
    var e := IndexOfAny(s, {'e', 'E'});
    var mantissa := ParseMantissa(s[..e]);
    var exponent := if e == |s| then Some(0) else ParseExponent(s[e + 1..]);
    if mantissa.None? || exponent.None? then None
    else Some(Scale(mantissa.value.0, exponent.value - mantissa.value.1))
  }

  /** ASCII letters lower-cased, other characters kept. */
  function AsciiLower(s: string): (r: string)
    ensures |r| == |s|
  {
    seq(|s|, i requires 0 <= i < |s| => if IsAsciiUpper(s[i]) then (s[i] as int + 32) as char else s[i])
  }

  predicate IsInfinityWord(s: string) {
    var w := AsciiLower(s);
    w == "inf" || w == "infinity"
  }

  predicate IsNanWord(s: string) {
    AsciiLower(s) == "nan"
  }

  function Negate(x: Float): Float {
    match x
    case Finite(v) => Finite(-v)
    case Infinity(n) => Infinity(!n)
    case NaN => NaN
  }

  /** An unsigned float literal: a word for infinity or not-a-number, or a decimal. */
  function ParseUnsigned(body: string): (r: Option<Float>)
    ensures IsInfinityWord(body) ==> r == Some(Infinity(false))
    ensures r.Some? && r.value.Finite? ==> ParseDecimal(body) == Some(r.value.value)
  {
    if IsInfinityWord(body) then Some(Infinity(false))
    else if IsNanWord(body) then Some(NaN)
    else if ParseDecimal(body).None? then None
    else Some(Finite(ParseDecimal(body).value))
  }

  /** A float literal with an optional sign and no surrounding whitespace. */
  function ParseSigned(t: string): (r: Option<Float>)
    ensures t == [] ==> r.None?
  {
    if t == [] then None
    else if t[0] == '-' then
      var x := ParseUnsigned(t[1..]);
      if x.None? then None else Some(Negate(x.value))
    else if t[0] == '+' then ParseUnsigned(t[1..])
    else ParseUnsigned(t)
  }

  /** `float(text)`: the value, or None for the ValueError. */
  function ParseFloat(s: string): (r: Option<Float>)
    ensures Strip(s) == [] ==> r.None?
  {
    ParseSigned(Strip(s))
  }

  /** Surrounding whitespace never changes the reading. */
  lemma ParseFloatIgnoresSpace(s: string)
    ensures ParseFloat(Strip(s)) == ParseFloat(s)
  {
    StripIdempotent(s);
  }

  /** A leading minus sign negates the reading of an unsigned literal. */
  lemma ParseFloatMinus(t: string)
    requires t != [] && t[0] != '+' && t[0] != '-'
    requires Strip(t) == t
    ensures ParseFloat("-" + t) == (match ParseFloat(t) case None => None case Some(x) => Some(Negate(x)))
  {
    var s := "-" + t;
    StripUnique(s, 0, |s|);
    assert s[1..] == t;
  }

  /** A string of digits holds no exponent marker and no decimal point. */
  lemma NoMarkerInDigits(s: string, cs: set<char>)
    requires AllDigits(s)
    requires forall c :: c in cs ==> !IsAsciiDigit(c)
    ensures IndexOfAny(s, cs) == |s|
  {
  }

  /** Reading an integer rendered in decimal gives that integer. */
  lemma ParseFloatNat(n: nat)
    ensures ParseFloat(NatToString(n)) == Some(Finite(n as real))
  {
    var s := NatToString(n);
    StripUnique(s, 0, |s|);
    assert s[..|s|] == s;
    NatToStringRoundTrip(n);
    NoMarkerInDigits(s, {'e', 'E'});
    NoMarkerInDigits(s, {'.'});
    assert AsciiLower(s) != "inf" && AsciiLower(s) != "infinity" && AsciiLower(s) != "nan" by {
      assert IsAsciiDigit(AsciiLower(s)[0]);
    }
  }

  /** The digits of `a` followed by those of `f` read as `a` shifted left by `|f|` places plus `f`. */
  lemma {:induction false} DigitsValueAppend(a: string, f: string)
    requires AllDigits(a) && AllDigits(f)
    ensures AllDigits(a + f)
    ensures DigitsValue(a + f) == DigitsValue(a) * Pow10(|f|) + DigitsValue(f)
    decreases |f|
  {
    assert AllDigits(a + f) by {
      assert forall i :: 0 <= i < |a + f| ==> (a + f)[i] == (if i < |a| then a[i] else f[i - |a|]);
    }
    if f == [] {
      assert a + f == a;
    } else {
      var f' := f[..|f| - 1];
      var d := f[|f| - 1] as int - '0' as int;
      assert (a + f)[..|a + f| - 1] == a + f';
      assert (a + f)[|a + f| - 1] == f[|f| - 1];
      assert DigitsValue(a + f) == DigitsValue(a + f') * 10 + d;
      DigitsValueAppend(a, f');
      ShiftOneDigit(DigitsValue(a), Pow10(|f'|), DigitsValue(f'), d);
    }
  }

  lemma ShiftOneDigit(x: int, p: int, v: int, d: int)
    ensures (x * p + v) * 10 + d == x * (10 * p) + (v * 10 + d)
  {
  }

  /** No letter word starts with a digit. */
  lemma DigitIsNoWord(s: string)
    requires s != [] && IsAsciiDigit(s[0])
    ensures !IsInfinityWord(s) && !IsNanWord(s)
  {
    assert IsAsciiDigit(AsciiLower(s)[0]);
  }

  /** A literal that starts and ends with a digit reads as its decimal value. */
  lemma ParseFloatPlain(s: string)
    requires s != [] && IsAsciiDigit(s[0]) && IsAsciiDigit(s[|s| - 1])
    ensures ParseFloat(s) == if ParseDecimal(s).None? then None else Some(Finite(ParseDecimal(s).value))
  {
    StripUnique(s, 0, |s|);
    assert s[0..|s|] == s;
    assert ParseFloat(s) == ParseSigned(s);
    assert s[0] != '-' && s[0] != '+';
    assert ParseSigned(s) == ParseUnsigned(s);
    DigitIsNoWord(s);
  }

  /** Without an exponent marker the decimal value is the mantissa's. */
  lemma ParseDecimalNoExponent(s: string)
    requires forall i :: 0 <= i < |s| ==> s[i] != 'e' && s[i] != 'E'
    ensures ParseDecimal(s) == if ParseMantissa(s).None? then None
      else Some(Scale(ParseMantissa(s).value.0, -(ParseMantissa(s).value.1 as int)))
  {
    assert IndexOfAny(s, {'e', 'E'}) == |s|;
    assert s[..|s|] == s;
  }

  /** The mantissa `whole.frac` of two digit strings. */
  lemma MantissaWithPoint(whole: string, frac: string)
    requires IsDigitString(whole) && IsDigitString(frac)
    ensures ParseMantissa(whole + "." + frac) == Some((DigitsValue(whole + frac), |frac|))
  {
    var s := whole + "." + frac;
    NoMarkerInDigits(whole, {'.'});
    assert s[..|whole|] == whole;
    assert s[|whole|] == '.';
    IndexOfAnyPrefix(s, |whole|, {'.'});
    assert s[|whole| + 1..] == frac;
    DigitStringIsDigitPart(whole);
    DigitStringIsDigitPart(frac);
  }

  /**
   * Reading `whole.frac`, both plain digit strings, gives the whole number
   * plus the fraction: "2.5" is 2.5 and "-0.4" (through ParseFloatMinus) is -0.4.
   */
  lemma ParseFloatDecimalPoint(whole: string, frac: string)
    requires IsDigitString(whole) && IsDigitString(frac)
    ensures ParseFloat(whole + "." + frac) == Some(Finite(PointValue(whole, frac)))
  {
    ParseFloatWithPoint(whole, frac);
    ScaleOfConcatenation(whole, frac);
  }

  /** The value written `whole.frac`: the whole number plus `frac` tenths, hundredths, ... */
  function PointValue(whole: string, frac: string): real
    requires AllDigits(whole) && AllDigits(frac)
  {
    DigitsValue(whole) as real + DigitsValue(frac) as real / Pow10(|frac|) as real
  }

  lemma ParseFloatWithPoint(whole: string, frac: string)
    requires IsDigitString(whole) && IsDigitString(frac)
    ensures AllDigits(whole + frac)
    ensures ParseFloat(whole + "." + frac) == Some(Finite(Scale(DigitsValue(whole + frac), -|frac|)))
  {
    var s := whole + "." + frac;
    DecimalChars(whole, frac);
    MantissaWithPoint(whole, frac);
    DecimalReading(s, DigitsValue(whole + frac), |frac|);
  }

  /** A literal of digits and a point, starting and ending with a digit, reads as its mantissa scaled down. */
  lemma DecimalReading(s: string, m: nat, n: nat)
    requires s != [] && IsAsciiDigit(s[0]) && IsAsciiDigit(s[|s| - 1])
    requires forall i :: 0 <= i < |s| ==> s[i] != 'e' && s[i] != 'E'
    requires ParseMantissa(s) == Some((m, n))
    ensures ParseFloat(s) == Some(Finite(Scale(m, -(n as int))))
  {
    ParseDecimalNoExponent(s);
    ParseFloatPlain(s);
  }

  lemma ScaleOfConcatenation(whole: string, frac: string)
    requires AllDigits(whole) && AllDigits(frac)
    ensures AllDigits(whole + frac)
    ensures Scale(DigitsValue(whole + frac), -|frac|) == PointValue(whole, frac)
  {
    DigitsValueAppend(whole, frac);
    ScaleDown(DigitsValue(whole), DigitsValue(frac), Pow10(|frac|));
  }

  lemma DecimalChars(whole: string, frac: string)
    requires IsDigitString(whole) && IsDigitString(frac)
    ensures var s := whole + "." + frac;
      && IsAsciiDigit(s[0]) && IsAsciiDigit(s[|s| - 1])
      && forall i :: 0 <= i < |s| ==> s[i] != 'e' && s[i] != 'E'
  {
    var s := whole + "." + frac;
    forall i | 0 <= i < |s|
      ensures s[i] != 'e' && s[i] != 'E'
    {
      if i < |whole| {
        assert s[i] == whole[i];
      } else if i > |whole| {
        assert s[i] == frac[i - |whole| - 1];
      }
    }
  }

  lemma ScaleDown(w: nat, f: nat, p: nat)
    requires p >= 1
    ensures (w * p + f) as real / p as real == w as real + f as real / p as real
  {
  }

  /** A plain digit string is a digit part. */
  lemma DigitStringIsDigitPart(s: string)
    requires IsDigitString(s)
    ensures IsDigitPart(s)
  {
    assert forall i :: 0 <= i < |s| ==> DigitPartCharAt(s, i);
  }

  /** The first marker is at `k` when `s[k]` is one and none comes before. */
  lemma IndexOfAnyPrefix(s: string, k: int, cs: set<char>)
    requires 0 <= k < |s| && s[k] in cs
    requires forall j :: 0 <= j < k ==> s[j] !in cs
    ensures IndexOfAny(s, cs) == k
  {
  }

  /** "NaN" reads as not-a-number: the words are matched in any letter case. */
  lemma ParseFloatNanWord()
    ensures ParseFloat("NaN") == Some(NaN)
  {
    StripUnique("NaN", 0, 3);
    assert "NaN"[0..3] == "NaN";
    var w := AsciiLower("NaN");
    assert w[0] == 'n' && w[1] == 'a' && w[2] == 'n';
    assert w == "nan";
  }

  lemma ParseFloatMinusInfinity()
    ensures ParseFloat("-inf") == Some(Infinity(true))
  {
    StripUnique("-inf", 0, 4);
    assert "-inf"[0..4] == "-inf";
    assert "-inf"[1..] == "inf";
    var w := AsciiLower("inf");
    assert w[0] == 'i' && w[1] == 'n' && w[2] == 'f';
    assert w == "inf";
  }

  /** Text that is no number is the ValueError. */
  lemma ParseFloatNotNumber()
    ensures ParseFloat("abc") == None
  {
    StripUnique("abc", 0, 3);
    assert "abc"[0..3] == "abc";
    AbcIsNoWord();
    AbcIsNoDecimal();
  }

  lemma AbcIsNoWord()
    ensures !IsInfinityWord("abc") && !IsNanWord("abc")
  {
    var w := AsciiLower("abc");
    assert w[0] == 'a' && w[1] == 'b';
  }

  lemma AbcIsNoDecimal()
    ensures ParseDecimal("abc") == None
  {
    ParseDecimalNoExponent("abc");
    assert IndexOfAny("abc", {'.'}) == 3;
    assert !DigitPartCharAt("abc", 0);
  }

  /** Underscores between digits are ignored: "1_0" is ten. */
  lemma ParseFloatUnderscore(s: string)
    requires s == "1_0"
    ensures ParseFloat(s) == Some(Finite(10.0))
  {
    assert |s| == 3 && s[0] == '1' && s[2] == '0';
    ParseFloatPlain(s);
    UnderscoreDecimal(s);
  }

  lemma UnderscoreDecimal(s: string)
    requires s == "1_0"
    ensures ParseDecimal(s) == Some(10.0)
  {
    assert |s| == 3 && s[0] == '1' && s[1] == '_' && s[2] == '0';
    ParseDecimalNoExponent(s);
    UnderscoreMantissa();
    assert Scale(10, 0) == 10.0;
  }

  lemma UnderscoreMantissa()
    ensures ParseMantissa("1_0") == Some((10, 0))
  {
    assert IndexOfAny("1_0", {'.'}) == 3;
    UnderscoreDigitPart();
  }

  lemma UnderscoreDigitPart()
    ensures IsDigitPart("1_0") && DigitPartValue("1_0") == 10
  {
    assert DigitPartCharAt("1_0", 0) && DigitPartCharAt("1_0", 1) && DigitPartCharAt("1_0", 2);
    assert Digits("1_0") == "10";
    assert DigitsValue("10") == 10;
  }
}

/**
 * The handful of Python `str` operations the scrapers rely on, over strings as
 * sequences of Unicode scalar values: `strip()`, `split(sep)[0]`,
 * `split(sep)[-1]`, `startswith`, `endswith`, `replace` of one character,
 * `isdigit`, `title()` and the decimal digits of an integer.
 */
module Text {

  /** Python's `str.isspace` for a single character: the characters `strip()` removes. */
  predicate IsSpace(c: char) {
    || c == ' ' || c == '\t' || c == '\n' || c == '\r'
    || c == '\U{0B}' || c == '\U{0C}'
    || ('\U{1C}' <= c <= '\U{1F}')
    || c == '\U{85}' || c == '\U{A0}' || c == '\U{1680}'
    || ('\U{2000}' <= c <= '\U{200A}')
    || c == '\U{2028}' || c == '\U{2029}' || c == '\U{202F}' || c == '\U{205F}' || c == '\U{3000}'
  }

  /** Removes leading whitespace; what is left is a suffix of `s`. */
  function TrimStart(s: string): (r: string)
    ensures |r| <= |s| && r == s[|s| - |r|..]
    ensures forall k :: 0 <= k < |s| - |r| ==> IsSpace(s[k])
    ensures r == [] || !IsSpace(r[0])
    decreases |s|
  {
    if |s| > 0 && IsSpace(s[0]) then TrimStart(s[1..]) else s
  }

  /** Removes trailing whitespace; what is left is a prefix of `s`. */
  function TrimEnd(s: string): (r: string)
    ensures |r| <= |s| && r == s[..|r|]
    ensures forall k :: |r| <= k < |s| ==> IsSpace(s[k])
    ensures r == [] || !IsSpace(r[|r| - 1])
    decreases |s|
  {
    if |s| > 0 && IsSpace(s[|s| - 1]) then TrimEnd(s[..|s| - 1]) else s
  }

  /** `s` with whitespace removed at both ends lies at offset `i` of `s`. */
  ghost predicate IsStrippedAt(s: string, r: string, i: int) {
    && 0 <= i <= |s| - |r|
    && s[i..i + |r|] == r
    && (forall k :: 0 <= k < i ==> IsSpace(s[k]))
    && (forall k :: i + |r| <= k < |s| ==> IsSpace(s[k]))
  }

  /** Python's `str.strip()` with no argument. */
  function Strip(s: string): (r: string)
    ensures IsStrippedAt(s, r, |s| - |TrimStart(s)|)
    ensures r == [] || (!IsSpace(r[0]) && !IsSpace(r[|r| - 1]))
  {
    var t := TrimStart(s);
    var r := TrimEnd(t);
    StripAt(s, t, r);
    r
  }

  lemma StripAt(s: string, t: string, r: string)
    requires |t| <= |s| && t == s[|s| - |t|..]
    requires forall k :: 0 <= k < |s| - |t| ==> IsSpace(s[k])
    requires |r| <= |t| && r == t[..|r|]
    requires forall k :: |r| <= k < |t| ==> IsSpace(t[k])
    ensures IsStrippedAt(s, r, |s| - |t|)
  {
    var a := |s| - |t|;
    assert s[a..a + |r|] == t[..|r|];
    forall k | a + |r| <= k < |s|
      ensures IsSpace(s[k])
    {
      assert s[k] == t[k - a];
    }
  }

  /** Stripping is determined by where the first and last non-blank characters are. */
  lemma StripUnique(s: string, i: int, j: int)
    requires 0 <= i <= j <= |s|
    requires forall k :: 0 <= k < i ==> IsSpace(s[k])
    requires forall k :: j <= k < |s| ==> IsSpace(s[k])
    requires i < j ==> !IsSpace(s[i]) && !IsSpace(s[j - 1])
    ensures Strip(s) == s[i..j]
  {
    var r := Strip(s);
    var a := |s| - |TrimStart(s)|;
    assert IsStrippedAt(s, r, a);
    if i < j {
      assert a <= i;
      assert r != [] ==> s[a] == r[0] && s[a + |r| - 1] == r[|r| - 1];
      assert a == i;
      assert a + |r| == j;
    }
  }

  /** Stripping twice is stripping once. */
  lemma StripIdempotent(s: string)
    ensures Strip(Strip(s)) == Strip(s)
  {
    var r := Strip(s);
    StripUnique(r, 0, |r|);
  }

  predicate StartsWith(s: string, p: string) {
    |p| <= |s| && s[..|p|] == p
  }

  predicate EndsWith(s: string, p: string) {
    |p| <= |s| && s[|s| - |p|..] == p
  }

  /** Python's `p in s` for a substring `p`. */
  predicate Contains(s: string, p: string)
    decreases |s|
  {
    StartsWith(s, p) || (|s| > 0 && Contains(s[1..], p))
  }

  /** For a one-character pattern, substring search is character membership. */
  lemma {:induction false} ContainsChar(s: string, c: char)
    ensures Contains(s, [c]) <==> c in s
    decreases |s|
  {
    if |s| > 0 {
      ContainsChar(s[1..], c);
      assert s == [s[0]] + s[1..];
    }
  }

  /** An occurrence of `p` at position `i` of `s` makes `s` contain `p`. */
  lemma {:induction false} ContainsAt(s: string, p: string, i: int)
    requires 0 <= i && i + |p| <= |s| && s[i..i + |p|] == p
    ensures Contains(s, p)
    decreases i
  {
    if i > 0 {
      assert s[1..][i - 1..i - 1 + |p|] == s[i..i + |p|];
      ContainsAt(s[1..], p, i - 1);
    }
  }

  /** A string that starts with `p` still does after more text is appended. */
  lemma PrefixStartsWith(s: string, t: string, p: string)
    ensures StartsWith(s, p) ==> StartsWith(s + t, p)
  {
    if |p| <= |s| {
      assert (s + t)[..|p|] == s[..|p|];
    }
  }

  /**
   * Python's `s.split(sep)[0]` for a non-empty separator: the text before the
   * first occurrence of `sep`, or all of `s` when there is none.
   */
  function SplitFirst(s: string, sep: string): (r: string)
    requires |sep| > 0
    ensures |r| <= |s| && r == s[..|r|]
    ensures !Contains(r, sep)
    ensures |r| < |s| <==> Contains(s, sep)
    ensures |r| < |s| ==> StartsWith(s[|r|..], sep)
    decreases |s|
  {
    if s == [] || StartsWith(s, sep) then []
    else
      var rest := SplitFirst(s[1..], sep);
      var r := [s[0]] + rest;
      assert r[1..] == rest;
      assert r + s[|r|..] == s;
      PrefixStartsWith(r, s[|r|..], sep);
      assert s[1..][|rest|..] == s[|r|..];
      r
  }

  /** `p` occurs in `s` starting at position `j`. */
  predicate OccursAt(s: string, p: string, j: int) {
    0 <= j && j + |p| <= |s| && s[j..j + |p|] == p
  }

  /** Dropping the first character moves every occurrence one place left. */
  lemma OccursShift(s: string, p: string, j: int)
    requires |s| > 0 && 0 <= j
    ensures OccursAt(s[1..], p, j) <==> OccursAt(s, p, j + 1)
  {
    if j + 1 + |p| <= |s| {
      assert s[1..][j..j + |p|] == s[j + 1..j + 1 + |p|];
    }
  }

  /** When `sep` first occurs at position `k`, the text before the first `sep` is `s[..k]`. */
  lemma {:induction false} SplitFirstAt(s: string, sep: string, k: int)
    requires |sep| > 0 && OccursAt(s, sep, k)
    requires forall j :: 0 <= j < k ==> !OccursAt(s, sep, j)
    ensures SplitFirst(s, sep) == s[..k]
    decreases k
  {
    assert StartsWith(s, sep) <==> OccursAt(s, sep, 0) by {
      assert s[..|sep|] == s[0..|sep|];
    }
    if k > 0 {
      var t := s[1..];
      assert SplitFirst(s, sep) == [s[0]] + SplitFirst(t, sep);
      OccursShift(s, sep, k - 1);
      forall j | 0 <= j < k - 1
        ensures !OccursAt(t, sep, j)
      {
        OccursShift(s, sep, j);
      }
      SplitFirstAt(t, sep, k - 1);
      assert s[..k] == [s[0]] + t[..k - 1];
    }
  }

  /**
   * Python's `s.split(c)[-1]` for a one-character separator: the text after the
   * last occurrence of `c`, or all of `s` when there is none.
   */
  function SplitLast(s: string, c: char): (r: string)
    ensures |r| <= |s| && r == s[|s| - |r|..]
    ensures c !in r
    ensures |r| < |s| <==> c in s
    ensures |r| < |s| ==> s[|s| - |r| - 1] == c
    decreases |s|
  {
    if s == [] then []
    else if s[|s| - 1] == c then []
    else
      var init := s[..|s| - 1];
      var r := SplitLast(init, c) + [s[|s| - 1]];
      assert s == init + [s[|s| - 1]];
      r
  }

  /** Splitting at the last `c` of `a + [c] + b`, where `b` has no `c`, gives back `b`. */
  lemma SplitLastAfter(a: string, c: char, b: string)
    requires c !in b
    ensures SplitLast(a + [c] + b, c) == b
  {
    var s := a + [c] + b;
    assert s[|a|] == c;
    assert s[|s| - |b|..] == b;
  }

  /** A string with no `c` is its own last segment. */
  lemma SplitLastNone(b: string, c: char)
    requires c !in b
    ensures SplitLast(b, c) == b
  {
  }

  /** `str.replace(from, to)` for single characters. */
  function ReplaceChar(s: string, from: char, to: char): (r: string)
    ensures |r| == |s|
    ensures forall i :: 0 <= i < |s| ==> r[i] == (if s[i] == from then to else s[i])
  {
    seq(|s|, i requires 0 <= i < |s| => if s[i] == from then to else s[i])
  }

  /** Replacing `from` by `to` and back restores any string that did not contain `to`. */
  lemma ReplaceCharRoundTrip(s: string, from: char, to: char)
    requires to !in s
    ensures ReplaceChar(ReplaceChar(s, from, to), to, from) == s
  {
  }

  predicate IsAsciiDigit(c: char) {
    '0' <= c <= '9'
  }

  /** Python's `str.isdigit` restricted to ASCII digits: non-empty and all digits. */
  predicate IsDigitString(s: string) {
    |s| > 0 && forall i :: 0 <= i < |s| ==> IsAsciiDigit(s[i])
  }

  predicate AllDigits(s: string) {
    forall i :: 0 <= i < |s| ==> IsAsciiDigit(s[i])
  }

  /** The value of a string of decimal digits, as Python's `int(s)`. */
  function DigitsValue(s: string): (n: nat)
    requires AllDigits(s)
    ensures n < Pow10(|s|)
    decreases |s|
  {
    if s == [] then 0
    else DigitsValue(s[..|s| - 1]) * 10 + (s[|s| - 1] as int - '0' as int)
  }

  function Pow10(k: nat): (p: nat)
    ensures p >= 1
  {
    if k == 0 then 1 else 10 * Pow10(k - 1)
  }

  function DigitAt(s: string, i: int): int
    requires 0 <= i < |s|
  {
    s[i] as int - '0' as int
  }

  function DigitChar(d: nat): (c: char)
    requires d < 10
    ensures IsAsciiDigit(c) && c as int - '0' as int == d
  {
    ('0' as int + d) as char
  }

  /** The decimal digits of `n` without leading zeros, as Python's `str(n)`. */
  function NatToString(n: nat): (s: string)
    ensures |s| > 0 && AllDigits(s)
    ensures |s| > 1 ==> s[0] != '0'
    decreases n
  {
    if n < 10 then [DigitChar(n)] else NatToString(n / 10) + [DigitChar(n % 10)]
  }

  /** Reading back the digits of `n` gives `n`. */
  lemma {:induction false} NatToStringRoundTrip(n: nat)
    ensures DigitsValue(NatToString(n)) == n
    decreases n
  {
    var s := NatToString(n);
    if n >= 10 {
      NatToStringRoundTrip(n / 10);
      assert s[..|s| - 1] == NatToString(n / 10);
    }
  }

  /** Digits with a non-zero lead have a positive value. */
  lemma {:induction false} LeadingDigitPositive(t: string)
    requires |t| > 0 && AllDigits(t) && t[0] != '0'
    ensures DigitsValue(t) >= 1
    decreases |t|
  {
    if |t| > 1 {
      LeadingDigitPositive(t[..|t| - 1]);
    }
  }

  /** The other direction: digits without a leading zero are the rendering of their value. */
  lemma {:induction false} DigitsToStringRoundTrip(t: string)
    requires |t| > 0 && AllDigits(t)
    requires |t| > 1 ==> t[0] != '0'
    ensures NatToString(DigitsValue(t)) == t
    decreases |t|
  {
    if |t| > 1 {
      var p := t[..|t| - 1];
      LeadingDigitPositive(p);
      DigitsToStringRoundTrip(p);
      var n := DigitsValue(t);
      assert n / 10 == DigitsValue(p) && n % 10 == DigitAt(t, |t| - 1);
      assert t == p + [t[|t| - 1]];
    }
  }

  /** `n` as exactly two digits with a leading zero, as `strftime`'s `%d` and `%m`. */
  function Pad2(n: nat): (s: string)
    requires n < 100
    ensures |s| == 2 && AllDigits(s) && DigitsValue(s) == n
  {
    var s := [DigitChar(n / 10), DigitChar(n % 10)];
    assert s[..1] == [s[0]];
    s
  }

  /** Any two digits are the padded rendering of their own value. */
  lemma Pad2OfDigits(s: string)
    requires |s| == 2 && AllDigits(s)
    ensures Pad2(DigitsValue(s)) == s
  {
    assert s[..1] == [s[0]];
    assert DigitsValue(s[..1]) == s[0] as int - '0' as int;
  }

  // ----- letter case, for ASCII and the Latin-1 Supplement -----

  predicate IsAsciiUpper(c: char) { 'A' <= c <= 'Z' }

  predicate IsAsciiLower(c: char) { 'a' <= c <= 'z' }

  /** Latin-1 capitals À..Þ (the multiplication sign excluded), whose lower case is 32 code points up. */
  predicate IsLatinUpper(c: char) { '\U{C0}' <= c <= '\U{DE}' && c != '\U{D7}' }

  predicate IsLatinLower(c: char) { '\U{E0}' <= c <= '\U{FE}' && c != '\U{F7}' }

  /** The letters `title()` treats as cased: ASCII letters and the Latin-1 letters, ß and ÿ included. */
  predicate IsCased(c: char) {
    IsAsciiUpper(c) || IsAsciiLower(c) || IsLatinUpper(c) || IsLatinLower(c)
    || c == '\U{DF}' || c == '\U{FF}'
  }

  function LowerChar(c: char): (r: char)
    ensures IsCased(r) <==> IsCased(c)
    ensures !IsAsciiUpper(r)
  {
    if IsAsciiUpper(c) || IsLatinUpper(c) then (c as int + 32) as char else c
  }

  function UpperChar(c: char): (r: char)
    ensures IsCased(r) <==> IsCased(c)
    ensures !IsAsciiLower(r)
  {
    if IsAsciiLower(c) || IsLatinLower(c) then (c as int - 32) as char else c
  }

  /** Python's `str.title()`: upper-case the first letter of every run of letters, lower-case the rest. */
  function Title(s: string): (r: string)
    ensures |r| == |s|
    ensures |s| > 0 ==> r[0] == UpperChar(s[0])
    ensures forall i :: 0 < i < |s| ==>
      r[i] == (if IsCased(s[i - 1]) then LowerChar(s[i]) else UpperChar(s[i]))
  {
    TitleAfter(s, false)
  }

  /** `title()` of `s` when the character before `s` was (`prevCased`) or was not a letter. */
  function TitleAfter(s: string, prevCased: bool): (r: string)
    ensures |r| == |s|
    ensures |s| > 0 ==> r[0] == (if prevCased then LowerChar(s[0]) else UpperChar(s[0]))
    ensures forall i :: 0 < i < |s| ==>
      r[i] == (if IsCased(s[i - 1]) then LowerChar(s[i]) else UpperChar(s[i]))
    decreases |s|
  {
    if s == [] then []
    else
      var c := if prevCased then LowerChar(s[0]) else UpperChar(s[0]);
      var rest := TitleAfter(s[1..], IsCased(s[0]));
      assert forall i :: 0 < i < |s| - 1 ==> s[1..][i - 1] == s[i] && s[1..][i] == s[i + 1];
      [c] + rest
  }
}

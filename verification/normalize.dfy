/**
 * Name normalisation used to compare municipality names: `unidecode`
 * transliteration followed by `.lower()`.
 *
 * Transliteration is modelled for the characters À to ÿ (U+00C0 to
 * U+00FF), which cover every accented letter of Portuguese; each maps to the
 * ASCII text `unidecode` gives it. Other characters are kept as they are.
 */
module Normalization {
  import opened Text

  /**
   * The lower-cased `unidecode` text of a character that has already been
   * lower-cased: the characters À to ÿ map to their ASCII spelling, every other
   * character stands for itself.
   */
  function FoldLower(c: char): (r: string)
    ensures 1 <= |r| <= 2
  {
    if c < '\U{D7}' || '\U{FF}' < c then [c]
    else if c == '\U{D7}' then "x"
    else if c < '\U{DF}' then [c]
    else if c == '\U{DF}' then "ss"
    else if c <= '\U{E5}' then "a"
    else if c == '\U{E6}' then "ae"
    else if c == '\U{E7}' then "c"
    else if c <= '\U{EB}' then "e"
    else if c <= '\U{EF}' then "i"
    else if c == '\U{F0}' then "d"
    else if c == '\U{F1}' then "n"
    else if c <= '\U{F6}' || c == '\U{F8}' then "o"
    else if c == '\U{F7}' then "/"
    else if c <= '\U{FC}' then "u"
    else if c == '\U{FE}' then "th"
    else "y"
  }

  /** Characters that survive normalisation unchanged: no ASCII capital and nothing in À to ÿ. */
  predicate IsNormalChar(c: char) {
    !IsAsciiUpper(c) && !('\U{C0}' <= c <= '\U{FF}')
  }

  /**
   * `unidecode(c).lower()` for one character. For the characters À to ÿ this is
   * the same as transliterating the lower-case letter: À gives "a", Æ "ae",
   * Þ "th", ß "ss".
   */
  function Fold(c: char): (r: string)
    ensures forall i :: 0 <= i < |r| ==> IsNormalChar(r[i])
    ensures IsNormalChar(c) ==> r == [c]
  {
    FoldLower(LowerChar(c))
  }

  /** `unidecode.unidecode(s).lower()`. */
  function Normalize(s: string): (r: string)
    ensures forall i :: 0 <= i < |r| ==> IsNormalChar(r[i])
    decreases |s|
  {
    if s == [] then []
    else
      var head := Fold(s[0]);
      var tail := Normalize(s[1..]);
      assert forall i :: |head| <= i < |head| + |tail| ==> (head + tail)[i] == tail[i - |head|];
      head + tail
  }

  /** Text that is already normal is left unchanged. */
  lemma {:induction false} NormalizeFixed(s: string)
    requires forall i :: 0 <= i < |s| ==> IsNormalChar(s[i])
    ensures Normalize(s) == s
    decreases |s|
  {
    if s != [] {
      NormalizeFixed(s[1..]);
    }
  }

  /** Normalising twice is normalising once. */
  lemma NormalizeIdempotent(s: string)
    ensures Normalize(Normalize(s)) == Normalize(s)
  {
    NormalizeFixed(Normalize(s));
  }

  /** Two names whose characters fold alike, position by position, normalise alike. */
  lemma {:induction false} NormalizePointwise(a: string, b: string)
    requires |a| == |b|
    requires forall i :: 0 <= i < |a| ==> Fold(a[i]) == Fold(b[i])
    ensures Normalize(a) == Normalize(b)
    decreases |a|
  {
    if a != [] {
      NormalizePointwise(a[1..], b[1..]);
    }
  }

  /** Letter case never matters to a character's normal form. */
  lemma FoldIgnoresCase(c: char)
    ensures Fold(UpperChar(c)) == Fold(c)
    ensures Fold(LowerChar(c)) == Fold(c)
  {
    assert LowerChar(UpperChar(c)) == LowerChar(c);
  }

  /** Title-casing a name does not change its normal form. */
  lemma NormalizeTitle(s: string)
    ensures Normalize(Title(s)) == Normalize(s)
  {
    var t := Title(s);
    forall i | 0 <= i < |s|
      ensures Fold(t[i]) == Fold(s[i])
    {
      FoldIgnoresCase(s[i]);
      if i > 0 {
        assert t[i] == (if IsCased(s[i - 1]) then LowerChar(s[i]) else UpperChar(s[i]));
      }
    }
    NormalizePointwise(t, s);
  }

  /** Normalising a concatenation normalises each part. */
  lemma {:induction false} NormalizeConcat(a: string, b: string)
    ensures Normalize(a + b) == Normalize(a) + Normalize(b)
    decreases |a|
  {
    if a == [] {
      assert a + b == b;
    } else {
      assert (a + b)[0] == a[0];
      assert (a + b)[1..] == a[1..] + b;
      NormalizeConcat(a[1..], b);
    }
  }

  const SaoPauloAccentedName := "São Paulo"
  const SaoPauloPlainName := "Sao Paulo"

  lemma SaoPauloParts()
    ensures SaoPauloAccentedName == "São" + " Paulo"
  {
  }

  lemma SaoAccented()
    ensures Normalize("São") == "sao"
  {
  }

  lemma PauloSpaced()
    ensures Normalize(" Paulo") == " paulo"
  {
  }

  lemma SaoPauloAccented()
    ensures Normalize(SaoPauloAccentedName) == "sao paulo"
  {
    SaoPauloParts();
    NormalizeConcat("São", " Paulo");
    SaoAccented();
    PauloSpaced();
  }

  lemma SaoPauloPlain()
    ensures Normalize(SaoPauloPlainName) == "sao paulo"
  {
    var a, b := SaoPauloAccentedName, SaoPauloPlainName;
    forall i | 0 <= i < |a|
      ensures Fold(a[i]) == Fold(b[i])
    {
      if i == 1 {
        assert Fold(a[i]) == "a" == Fold(b[i]);
      } else {
        assert a[i] == b[i];
      }
    }
    NormalizePointwise(a, b);
    SaoPauloAccented();
  }

  /** Accents and capitals are ignored: "São Paulo" and "Sao Paulo" both normalise to "sao paulo". */
  lemma NormalizeExample()
    ensures Normalize(SaoPauloAccentedName) == Normalize(SaoPauloPlainName) == "sao paulo"
  {
    SaoPauloAccented();
    SaoPauloPlain();
  }
}

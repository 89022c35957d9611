/**
 * The two Python string methods the validators rely on: `str.strip()` (to
 * decide that a field is blank) and `str.title()` (to compare breed names).
 */
module Text {

  /** Python's `str.isspace()` for one character: the ASCII controls
      tab, line feed, vertical tab, form feed, carriage return and the four
      separators 0x1C..0x1F, space, and the Unicode spaces and separators. */
  predicate IsSpace(c: char) {
    || ('\t' <= c <= '\r')
    || ('\U{1c}' <= c <= '\U{1f}')
    || c == ' '
    || c == '\U{85}'
    || c == '\U{a0}'
    || c == '\U{1680}'
    || ('\U{2000}' <= c <= '\U{200a}')
    || c == '\U{2028}'
    || c == '\U{2029}'
    || c == '\U{202f}'
    || c == '\U{205f}'
    || c == '\U{3000}'
  }

  /** `s.lstrip()`: drops the leading whitespace. */
  function StripLeft(s: string): (r: string)
    ensures |r| <= |s| && r == s[|s| - |r|..]
    ensures forall i :: 0 <= i < |s| - |r| ==> IsSpace(s[i])
    ensures r != [] ==> !IsSpace(r[0])
  {
    if s != [] && IsSpace(s[0]) then StripLeft(s[1..]) else s
  }

  /** `s.rstrip()`: drops the trailing whitespace. */
  function StripRight(s: string): (r: string)
    ensures |r| <= |s| && r == s[..|r|]
    ensures forall i :: |r| <= i < |s| ==> IsSpace(s[i])
    ensures r != [] ==> !IsSpace(r[|r| - 1])
  {
    if s != [] && IsSpace(s[|s| - 1]) then StripRight(s[..|s| - 1]) else s
  }

  /** A string made only of whitespace; the empty string is one. */
  predicate IsBlank(s: string) {
    forall i :: 0 <= i < |s| ==> IsSpace(s[i])
  }

  /** `s.strip()`: drops the leading and the trailing whitespace. Nothing is
      left exactly when `s` is blank, so `not s.strip()`, the test of every
      "must not be empty" validator, is `IsBlank(s)`; otherwise what is left
      neither starts nor ends with whitespace. */
  function Strip(s: string): (r: string)
    ensures |r| <= |s|
    ensures r == [] <==> IsBlank(s)
    ensures r != [] ==> !IsSpace(r[0]) && !IsSpace(r[|r| - 1])
  {
    StripBothEmptyIffBlank(s);
    StripRight(StripLeft(s))
  }

  lemma StripBothEmptyIffBlank(s: string)
    ensures StripRight(StripLeft(s)) == [] <==> IsBlank(s)
  {
    var l := StripLeft(s);
    if StripRight(l) == [] {
      forall i | |s| - |l| <= i < |s| ensures IsSpace(s[i]) {
        assert s[i] == l[i - (|s| - |l|)];
      }
    }
  }

  predicate IsUpper(c: char) { 'A' <= c <= 'Z' }
  predicate IsLower(c: char) { 'a' <= c <= 'z' }

  /** A cased character, one that `str.title()` treats as part of a word. */
  predicate IsCased(c: char) { IsUpper(c) || IsLower(c) }

  function Upper(c: char): (u: char)
    ensures IsCased(u) == IsCased(c)
  {
    if IsLower(c) then (c as int - 32) as char else c
  }

  function Lower(c: char): (l: char)
    ensures IsCased(l) == IsCased(c)
  {
    if IsUpper(c) then (c as int + 32) as char else c
  }

  /** Title-casing of `s` given whether the character before it was cased:
      the first cased character of each word is upper-cased, the rest of the
      word lower-cased, everything else kept. */
  function TitleFrom(s: string, inWord: bool): (r: string)
    ensures |r| == |s|
    ensures forall i :: 0 <= i < |s| ==>
      r[i] == if (if i == 0 then inWord else IsCased(s[i - 1])) then Lower(s[i]) else Upper(s[i])
  {
    if s == [] then []
    else [if inWord then Lower(s[0]) else Upper(s[0])] + TitleFrom(s[1..], IsCased(s[0]))
  }

  /** `s.title()` over ASCII letters. */
  function Title(s: string): (r: string)
    ensures |r| == |s|
    ensures forall i :: 0 <= i < |s| ==>
      r[i] == if i > 0 && IsCased(s[i - 1]) then Lower(s[i]) else Upper(s[i])
  {
    TitleFrom(s, false)
  }

  /** Two strings that differ at most in the case of their ASCII letters. */
  predicate SameIgnoringCase(s: string, t: string) {
    |s| == |t| && forall i :: 0 <= i < |s| ==> Lower(s[i]) == Lower(t[i])
  }

  lemma {:induction false} TitleFromIgnoresCase(s: string, t: string, inWord: bool)
    requires SameIgnoringCase(s, t)
    ensures TitleFrom(s, inWord) == TitleFrom(t, inWord)
  {
    if s != [] {
      assert Lower(s[0]) == Lower(t[0]);
      assert SameIgnoringCase(s[1..], t[1..]) by {
        forall i | 0 <= i < |s| - 1 ensures Lower(s[1..][i]) == Lower(t[1..][i]) {
          assert Lower(s[i + 1]) == Lower(t[i + 1]);
        }
      }
      TitleFromIgnoresCase(s[1..], t[1..], IsCased(s[0]));
    }
  }

  lemma {:induction false} TitleFromKeepsLetters(s: string, inWord: bool)
    ensures SameIgnoringCase(TitleFrom(s, inWord), s)
  {
    if s != [] {
      TitleFromKeepsLetters(s[1..], IsCased(s[0]));
      var r := TitleFrom(s, inWord);
      assert r[1..] == TitleFrom(s[1..], IsCased(s[0]));
      forall i | 0 <= i < |s| ensures Lower(r[i]) == Lower(s[i]) {
        if i > 0 {
          assert r[i] == r[1..][i - 1] && s[i] == s[1..][i - 1];
        }
      }
    }
  }

  /** Title-casing makes two strings equal exactly when they already agree up
      to letter case: `a.title() == b.title()` is a case-insensitive comparison. */
  lemma TitleEqualIffSameIgnoringCase(s: string, t: string)
    ensures Title(s) == Title(t) <==> SameIgnoringCase(s, t)
  {
    TitleFromKeepsLetters(s, false);
    TitleFromKeepsLetters(t, false);
    if SameIgnoringCase(s, t) {
      TitleFromIgnoresCase(s, t, false);
    }
    if Title(s) == Title(t) {
      forall i | 0 <= i < |s| ensures Lower(s[i]) == Lower(t[i]) {
        assert Lower(Title(s)[i]) == Lower(s[i]);
        assert Lower(Title(t)[i]) == Lower(t[i]);
      }
    }
  }
}

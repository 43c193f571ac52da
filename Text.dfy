/**
  String helpers with Python's meaning: `str.strip()` with no argument removes
  every leading and trailing character for which `str.isspace()` holds, and
  `str.lower()` is needed only to compare against the ASCII words "exit",
  "quit" and "1".
*/
module Text {

  /** The characters Python's `str.isspace()` accepts. */
  predicate IsSpace(c: char) {
    c == ' ' || ('\t' <= c <= '\r') || ('\U{1C}' <= c <= '\U{1F}')
    || c == '\U{85}' || c == '\U{A0}' || c == '\U{1680}'
    || ('\U{2000}' <= c <= '\U{200A}') || c == '\U{2028}' || c == '\U{2029}'
    || c == '\U{202F}' || c == '\U{205F}' || c == '\U{3000}'
  }

  predicate AllSpace(s: string) {
    forall k :: 0 <= k < |s| ==> IsSpace(s[k])
  }

  /** A string that `strip()` leaves as it is: empty, or bounded by non-space characters. */
  predicate IsStripped(s: string) {
    s == [] || (!IsSpace(s[0]) && !IsSpace(s[|s| - 1]))
  }

  /** The index of the first non-space character of `s` at or after `i`, or
      `|s|` when there is none. */
  function SkipSpaces(s: string, i: nat): (j: nat)
    requires i <= |s|
    ensures i <= j <= |s|
    ensures forall k :: i <= k < j ==> IsSpace(s[k])
    ensures j < |s| ==> !IsSpace(s[j])
    decreases |s| - i
  {
    if i < |s| && IsSpace(s[i]) then SkipSpaces(s, i + 1) else i
  }

  /** The end of `s[lo..hi]` once its trailing whitespace is dropped. */
  function TrimEnd(s: string, lo: nat, hi: nat): (e: nat)
    requires lo <= hi <= |s|
    ensures lo <= e <= hi
    ensures forall k :: e <= k < hi ==> IsSpace(s[k])
    ensures lo < e ==> !IsSpace(s[e - 1])
    decreases hi
  {
    if lo < hi && IsSpace(s[hi - 1]) then TrimEnd(s, lo, hi - 1) else hi
  }

  /** Python's `s.strip()`: what lies between the leading and the trailing
      whitespace. */
  function Strip(s: string): (r: string)
    ensures IsStripped(r)
    ensures r == [] <==> AllSpace(s)
  {
    var lo := SkipSpaces(s, 0);
    var hi := TrimEnd(s, lo, |s|);
    assert hi == lo ==> AllSpace(s) by {
      if hi == lo {
        assert lo == |s|;
      }
    }
    assert lo < hi ==> s[lo..hi][0] == s[lo] && s[lo..hi][hi - lo - 1] == s[hi - 1];
    s[lo..hi]
  }

  /** What `strip()` keeps is the infix of `s` between a whitespace prefix and a
      whitespace suffix, and it begins and ends with a non-space character. */
  lemma StripIsInfix(s: string)
    ensures var lo := SkipSpaces(s, 0);
            var hi := lo + |Strip(s)|;
            hi <= |s| && Strip(s) == s[lo..hi]
            && (forall k :: 0 <= k < lo ==> IsSpace(s[k]))
            && (forall k :: hi <= k < |s| ==> IsSpace(s[k]))
  {
  }

  /** `strip()` changes nothing on a string that is already stripped. */
  lemma StripStripped(s: string)
    requires IsStripped(s)
    ensures Strip(s) == s
  {
  }

  /** A tag that starts with a non-space character, followed by a non-empty
      stripped text, is left unchanged by `strip()`. */
  lemma StripLabelled(tag: string, text: string)
    requires tag != [] && !IsSpace(tag[0])
    requires text != [] && IsStripped(text)
    ensures Strip(tag + text) == tag + text
  {
    var s := tag + text;
    assert s[0] == tag[0] && s[|s| - 1] == text[|text| - 1];
    StripStripped(s);
  }

  /** ASCII lower-casing of one character. */
  function LowerChar(c: char): char {
    if 'A' <= c <= 'Z' then (c as int - 'A' as int + 'a' as int) as char else c
  }

  /** `s.lower()`, restricted to ASCII letters. */
  function Lower(s: string): string {
    seq(|s|, k requires 0 <= k < |s| => LowerChar(s[k]))
  }

  /** `c` is the lower-case letter `lower`, or that letter in upper case. */
  predicate SameLetter(c: char, lower: char) {
    c == lower || ('a' <= lower <= 'z' && c as int == lower as int - 32)
  }

  /** `s` spells the lower-case `word` in any mix of letter cases. */
  predicate MatchesIgnoringCase(s: string, word: string) {
    |s| == |word| && forall k :: 0 <= k < |s| ==> SameLetter(s[k], word[k])
  }

  /** Lower-casing yields a lower-case word exactly when the string spells
      that word in some mix of cases. */
  lemma LowerMatches(s: string, word: string)
    requires forall k :: 0 <= k < |word| ==> 'a' <= word[k] <= 'z'
    ensures Lower(s) == word <==> MatchesIgnoringCase(s, word)
  {
    if |s| == |word| {
      forall k | 0 <= k < |s|
        ensures Lower(s)[k] == word[k] <==> SameLetter(s[k], word[k])
      {
      }
      if MatchesIgnoringCase(s, word) {
        assert forall k :: 0 <= k < |s| ==> Lower(s)[k] == word[k];
      }
    }
  }

  /** Only "1" lower-cases to "1". */
  lemma LowerIsOne(s: string)
    ensures Lower(s) == "1" <==> s == "1"
  {
    if Lower(s) == "1" {
      assert Lower(s)[0] == LowerChar(s[0]) == '1';
    }
  }
}

/** The string operations the credential code relies on: JavaScript's `trim` and `endsWith`. */
module Text {

  /** The characters `String.prototype.trim` strips: ECMAScript's WhiteSpace
      (tab, vertical tab, form feed, space, no-break space, byte order mark and
      the Unicode space separators) and LineTerminator (LF, CR, LS, PS). */
  predicate IsSpace(c: char)
  {
    || c == ' ' || c == '\t' || c == '\n' || c == '\r'
    || c == '\U{000B}' || c == '\U{000C}' || c == '\U{00A0}' || c == '\U{1680}'
    || ('\U{2000}' <= c <= '\U{200A}')
    || c == '\U{2028}' || c == '\U{2029}' || c == '\U{202F}' || c == '\U{205F}'
    || c == '\U{3000}' || c == '\U{FEFF}'
  }

  /** `s` is empty or all whitespace. */
  predicate Blank(s: string)
  {
    forall k :: 0 <= k < |s| ==> IsSpace(s[k])
  }

  /** The index of the first non-space character of `s` at or after `i`
      (`|s|` when there is none). */
  function SkipSpaces(s: string, i: nat): (r: nat)
    requires i <= |s|
    ensures i <= r <= |s|
    ensures forall k :: i <= k < r ==> IsSpace(s[k])
    ensures r < |s| ==> !IsSpace(s[r])
    decreases |s| - i
  {
    if i < |s| && IsSpace(s[i]) then SkipSpaces(s, i + 1) else i
  }

  /** The end of `s[lo..j]` once its trailing whitespace is cut off. */
  function SkipSpacesBack(s: string, lo: nat, j: nat): (r: nat)
    requires lo <= j <= |s|
    ensures lo <= r <= j
    ensures forall k :: r <= k < j ==> IsSpace(s[k])
    ensures r > lo ==> !IsSpace(s[r - 1])
    decreases j
  {
    if j > lo && IsSpace(s[j - 1]) then SkipSpacesBack(s, lo, j - 1) else j
  }

  /** Where the trimmed part of `s` starts. */
  function TrimStartIndex(s: string): nat
  {
    SkipSpaces(s, 0)
  }

  /** Where the trimmed part of `s` ends. */
  function TrimEndIndex(s: string): nat
  {
    SkipSpacesBack(s, TrimStartIndex(s), |s|)
  }

  /** JavaScript's `s.trim()`: the part of `s` between its leading and its
      trailing whitespace. */
  function Trim(s: string): (r: string)
    ensures TrimStartIndex(s) <= TrimEndIndex(s) <= |s|
    ensures r == s[TrimStartIndex(s)..TrimEndIndex(s)]
    ensures forall k :: 0 <= k < TrimStartIndex(s) ==> IsSpace(s[k])
    ensures forall k :: TrimEndIndex(s) <= k < |s| ==> IsSpace(s[k])
    ensures r != [] ==> !IsSpace(r[0]) && !IsSpace(r[|r| - 1])
    ensures r == [] <==> Blank(s)
  {
    var lo := TrimStartIndex(s);
    var hi := TrimEndIndex(s);
    assert hi == lo ==> Blank(s);
    s[lo..hi]
  }

  /** A string with no whitespace at either end is its own trim. */
  lemma TrimFixed(s: string)
    requires s != [] ==> !IsSpace(s[0]) && !IsSpace(s[|s| - 1])
    ensures Trim(s) == s
  {
    assert TrimStartIndex(s) == 0;
    if s != [] {
      assert TrimEndIndex(s) == |s|;
    }
  }

  /** JavaScript's `s.endsWith(suffix)`: a plain, case-sensitive suffix test. */
  predicate EndsWith(s: string, suffix: string)
  {
    |suffix| <= |s| && s[|s| - |suffix|..] == suffix
  }
}

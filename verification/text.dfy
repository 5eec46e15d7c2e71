/** Character classes and whitespace stripping, as the validators use them.
    Python's `str.strip()`, `\s` and `\w` are Unicode-aware; this model keeps
    their ASCII part: whitespace is space, tab, line feed, vertical tab, form
    feed, carriage return and the four separators U+001C..U+001F. */
module Text {
  import opened Results

  predicate IsSpace(c: char) {
    c == ' ' || c == '\t' || c == '\n' || c == '\r' || c == '\U{B}' || c == '\U{C}'
    || ('\U{1C}' <= c <= '\U{1F}')
  }

  predicate IsUpper(c: char) {
    'A' <= c <= 'Z'
  }

  predicate IsLower(c: char) {
    'a' <= c <= 'z'
  }

  predicate IsLetter(c: char) {
    IsUpper(c) || IsLower(c)
  }

  predicate IsDigit(c: char) {
    '0' <= c <= '9'
  }

  /** `\w`: letters, digits and underscore. */
  predicate IsWord(c: char) {
    IsLetter(c) || IsDigit(c) || c == '_'
  }

  predicate AllSpace(s: string) {
    forall i :: 0 <= i < |s| ==> IsSpace(s[i])
  }

  /** `s[a..b]` is `s` without whitespace at either end: everything before `a`
      and from `b` on is whitespace, and a non-empty `s[a..b]` starts and ends
      with a non-space character. */
  predicate StripBounds(s: string, a: int, b: int) {
    && 0 <= a <= b <= |s|
    && (forall i :: 0 <= i < a ==> IsSpace(s[i]))
    && (forall i :: b <= i < |s| ==> IsSpace(s[i]))
    && (a < b ==> !IsSpace(s[a]) && !IsSpace(s[b - 1]))
  }

  ghost predicate IsStripOf(s: string, r: string) {
    exists a, b :: StripBounds(s, a, b) && r == s[a..b]
  }

  /** Index of the first non-space character, or `|s|`. */
  function SkipSpaces(s: string, from: nat): (a: nat)
    requires from <= |s|
    requires forall i :: 0 <= i < from ==> IsSpace(s[i])
    ensures from <= a <= |s|
    ensures forall i :: 0 <= i < a ==> IsSpace(s[i])
    ensures a < |s| ==> !IsSpace(s[a])
    decreases |s| - from
  {
    if from < |s| && IsSpace(s[from]) then SkipSpaces(s, from + 1) else from
  }

  /** One past the last non-space character at or after `lo`, or `lo`. */
  function SkipSpacesBack(s: string, lo: nat, hi: nat): (b: nat)
    requires lo <= hi <= |s|
    requires forall i :: hi <= i < |s| ==> IsSpace(s[i])
    ensures lo <= b <= hi
    ensures forall i :: b <= i < |s| ==> IsSpace(s[i])
    ensures b > lo ==> !IsSpace(s[b - 1])
    decreases hi
  {
    if hi > lo && IsSpace(s[hi - 1]) then SkipSpacesBack(s, lo, hi - 1) else hi
  }

  /** Python's `str.strip()`. */
  function Strip(s: string): (r: string)
    ensures IsStripOf(s, r)
    ensures |r| <= |s|
  {
    var a := SkipSpaces(s, 0);
    var b := SkipSpacesBack(s, a, |s|);
    assert StripBounds(s, a, b);
    s[a..b]
  }

  /** The bounds of a strip are unique, up to the empty result. */
  lemma StripBoundsUnique(s: string, a: int, b: int, c: int, d: int)
    requires StripBounds(s, a, b) && StripBounds(s, c, d)
    ensures s[a..b] == s[c..d]
  {
    if a < b && c < d {
      assert a == c;
      assert b == d;
    }
  }

  /** Stripping is determined by its defining property: any `r` that `s` strips
      to is `Strip(s)`. */
  lemma StripUnique(s: string, r: string)
    requires IsStripOf(s, r)
    ensures Strip(s) == r
  {
    var q := Strip(s);
    var a, b :| StripBounds(s, a, b) && r == s[a..b];
    var c, d :| StripBounds(s, c, d) && q == s[c..d];
    StripBoundsUnique(s, a, b, c, d);
  }

  /** Stripping twice is stripping once. */
  lemma StripIdempotent(s: string)
    ensures Strip(Strip(s)) == Strip(s)
  {
    var r := Strip(s);
    var a, b :| StripBounds(s, a, b) && r == s[a..b];
    assert StripBounds(r, 0, |r|);
    assert r[0..|r|] == r;
    StripUnique(r, r);
  }

  /** A string strips to nothing exactly when it is all whitespace. */
  lemma StripEmptyIff(s: string)
    ensures Strip(s) == [] <==> AllSpace(s)
  {
    if AllSpace(s) {
      assert StripBounds(s, 0, 0);
      StripUnique(s, []);
    } else {
      var r := Strip(s);
      var a, b :| StripBounds(s, a, b) && r == s[a..b];
      var i :| 0 <= i < |s| && !IsSpace(s[i]);
      assert a < b;
    }
  }

  /** The stripped string neither starts nor ends with whitespace. */
  lemma StripEnds(s: string)
    ensures var r := Strip(s); r == [] || (!IsSpace(r[0]) && !IsSpace(r[|r| - 1]))
  {
    var r := Strip(s);
    var a, b :| StripBounds(s, a, b) && r == s[a..b];
  }

  /** Index of the first `c` in `s`, if any. */
  function FindFirst(s: string, c: char): (r: Option<nat>)
    ensures r.None? <==> c !in s
    ensures r.Some? ==> r.value < |s| && s[r.value] == c && forall k :: 0 <= k < r.value ==> s[k] != c
  {
    if s == [] then None
    else if s[0] == c then Some(0)
    else
      match FindFirst(s[1..], c)
      case None => None
      case Some(i) => Some(i + 1)
  }

  /** Index of the last `c` in `s`, if any. */
  function FindLast(s: string, c: char): (r: Option<nat>)
    ensures r.None? <==> c !in s
    ensures r.Some? ==> r.value < |s| && s[r.value] == c && forall k :: r.value < k < |s| ==> s[k] != c
  {
    if s == [] then None
    else if s[|s| - 1] == c then Some(|s| - 1)
    else
      assert forall k :: 0 <= k < |s| - 1 ==> s[..|s| - 1][k] == s[k];
      FindLast(s[..|s| - 1], c)
  }
}

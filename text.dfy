/** The string operations the scraper applies to text content:
    `String.prototype.trim` and `String.prototype.toLowerCase`. */
module Text {

  /** The code points ECMAScript's `trim` removes: the WhiteSpace set (TAB, VT,
      FF, ZWNBSP and the Unicode space separators) and the LineTerminator set
      (LF, CR, LS, PS). */
  predicate IsWhitespace(c: char) {
    c == '\t' || c == '\n' || c == '\U{000B}' || c == '\U{000C}' || c == '\r'
    || c == ' ' || c == '\U{00A0}' || c == '\U{1680}'
    || ('\U{2000}' <= c <= '\U{200A}')
    || c == '\U{2028}' || c == '\U{2029}' || c == '\U{202F}' || c == '\U{205F}'
    || c == '\U{3000}' || c == '\U{FEFF}'
  }

  /** Every character of `s` from index `lo` up to (not including) `hi` is
      whitespace. */
  predicate WhitespaceIn(s: string, lo: int, hi: int)
    requires 0 <= lo && hi <= |s|
  {
    forall k :: lo <= k < hi ==> IsWhitespace(s[k])
  }

  /** The index of the first non-whitespace character of `s` at or after `i`,
      or `|s|` when there is none. */
  function LeadingEnd(s: string, i: nat): (k: nat)
    requires i <= |s|
    decreases |s| - i
    ensures i <= k <= |s| && WhitespaceIn(s, i, k)
    ensures k < |s| ==> !IsWhitespace(s[k])
  {
    if i == |s| || !IsWhitespace(s[i]) then i else LeadingEnd(s, i + 1)
  }

  /** The index just past the last non-whitespace character of `s` before
      `j`, searching no lower than `lo`. */
  function TrailingStart(s: string, lo: nat, j: nat): (k: nat)
    requires lo <= j <= |s|
    decreases j - lo
    ensures lo <= k <= j && WhitespaceIn(s, k, j)
    ensures lo < k ==> !IsWhitespace(s[k - 1])
  {
    if j == lo || !IsWhitespace(s[j - 1]) then j else TrailingStart(s, lo, j - 1)
  }

  /** `s.trim()`: the part of `s` between its leading and its trailing
      whitespace. */
  function Trim(s: string): (r: string)
    ensures exists i :: 0 <= i <= |s| - |r| && r == s[i..i + |r|]
                        && WhitespaceIn(s, 0, i) && WhitespaceIn(s, i + |r|, |s|)
    ensures r != [] ==> !IsWhitespace(r[0]) && !IsWhitespace(r[|r| - 1])
    ensures r == [] <==> WhitespaceIn(s, 0, |s|)
  {
    var i := LeadingEnd(s, 0);
    s[i..TrailingStart(s, i, |s|)]
  }

  /** Trimming is determined by its contract: whenever `s` splits into
      whitespace, a core that neither starts nor ends with whitespace, and
      whitespace, `Trim(s)` is that core. */
  lemma TrimUnique(s: string, i: nat, j: nat)
    requires i <= j <= |s|
    requires WhitespaceIn(s, 0, i) && WhitespaceIn(s, j, |s|)
    requires i < j ==> !IsWhitespace(s[i]) && !IsWhitespace(s[j - 1])
    ensures Trim(s) == s[i..j]
  {
    var a := LeadingEnd(s, 0);
    if i < j {
      assert a == i;
      var b := TrailingStart(s, a, |s|);
      assert b == j;
    }
  }

  /** Trimming twice is trimming once. */
  lemma TrimIdempotent(s: string)
    ensures Trim(Trim(s)) == Trim(s)
  {
    var r := Trim(s);
    TrimUnique(r, 0, |r|);
  }

  /** ASCII upper-case letters map to their lower-case counterpart; every other
      character is left as it is. */
  function LowerChar(c: char): char {
    if 'A' <= c <= 'Z' then (c as int + 32) as char else c
  }

  predicate IsAsciiUpper(c: char) {
    'A' <= c <= 'Z'
  }

  /** `s.toLowerCase()` restricted to ASCII letters. */
  function ToLower(s: string): (r: string)
    ensures |r| == |s|
    ensures forall k :: 0 <= k < |r| ==> !IsAsciiUpper(r[k])
    ensures forall k :: 0 <= k < |s| && !IsAsciiUpper(s[k]) ==> r[k] == s[k]
    ensures forall k :: 0 <= k < |s| && IsAsciiUpper(s[k]) ==> r[k] as int == s[k] as int + 32
  {
    seq(|s|, k requires 0 <= k < |s| => LowerChar(s[k]))
  }

  /** `s.indexOf(c)` when `c` occurs in `s`, and `|s|` when it does not: the
      length of the piece `s.split(c)[0]`. */
  function IndexOf(s: string, c: char): (k: nat)
    ensures k <= |s| && (k == |s| || s[k] == c)
    ensures forall m :: 0 <= m < k ==> s[m] != c
  {
    if s == [] || s[0] == c then 0 else 1 + IndexOf(s[1..], c)
  }
}

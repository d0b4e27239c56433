/**
 * The pieces of JavaScript string semantics that the editor's code leans on:
 * the clamping of `String.prototype.slice` and `String.prototype.substring`,
 * the `\s` character class, and the text a template literal produces for
 * `str[k]` (which is `"undefined"` past the end of the string).
 *
 * Offsets are positions in a `seq<char>`; the UTF-16 code units of
 * JavaScript strings are not modelled.
 */
module JsText {

  function Min(a: int, b: int): int { if a <= b then a else b }

  function Max(a: int, b: int): int { if a <= b then b else a }

  /** An index argument of `slice`: negative counts from the end, then clamped to [0, n]. */
  function SliceIndex(i: int, n: nat): (k: nat)
    ensures k <= n
    ensures 0 <= i <= n ==> k == i
  {
    if i < 0 then Max(n + i, 0) else Min(i, n)
  }

  /** `s.slice(begin, end)`. */
  function Slice(s: string, begin: int, end: int): (r: string)
    ensures 0 <= begin <= end <= |s| ==> r == s[begin..end]
    ensures |r| <= |s|
  {
    var from := SliceIndex(begin, |s|);
    var to := SliceIndex(end, |s|);
    if from < to then s[from..to] else ""
  }

  /** `s.slice(begin)`. */
  function SliceFrom(s: string, begin: int): (r: string)
    ensures 0 <= begin <= |s| ==> r == s[begin..]
    ensures begin >= |s| ==> r == ""
  {
    Slice(s, begin, |s|)
  }

  /** An index argument of `substring`: clamped to [0, n], negatives become 0. */
  function SubstringIndex(i: int, n: nat): (k: nat)
    ensures k <= n
    ensures 0 <= i <= n ==> k == i
  {
    if i < 0 then 0 else Min(i, n)
  }

  /** `s.substring(start, end)`: both ends clamped, and swapped when start > end. */
  function Substring(s: string, start: int, end: int): (r: string)
    ensures 0 <= start <= end <= |s| ==> r == s[start..end]
    ensures 0 <= end <= start <= |s| ==> r == s[end..start]
    ensures |r| <= |s|
  {
    var a := SubstringIndex(start, |s|);
    var b := SubstringIndex(end, |s|);
    if a <= b then s[a..b] else s[b..a]
  }

  /** The characters matched by the regular-expression class `\s`. */
  function IsWhitespace(c: char): (b: bool)
    ensures c == ' ' || c == '\t' || c == '\n' || c == '\r' ==> b
    ensures ('a' <= c <= 'z') || ('A' <= c <= 'Z') || ('0' <= c <= '9') || c == '@' ==> !b
  {
    || c == '\t' || c == '\n' || c == '\U{B}' || c == '\U{C}' || c == '\r' || c == ' '
    || c == '\U{A0}' || c == '\U{1680}'
    || ('\U{2000}' <= c <= '\U{200A}')
    || c == '\U{2028}' || c == '\U{2029}' || c == '\U{202F}' || c == '\U{205F}'
    || c == '\U{3000}' || c == '\U{FEFF}'
  }

  /** `/\s/.test(t)`: some character of `t` is whitespace. */
  predicate TestsWhitespace(t: string) {
    exists i :: 0 <= i < |t| && IsWhitespace(t[i])
  }

  /** The text `${str[k]}` produces: the character, or "undefined" past the end. */
  function CharText(str: string, k: nat): (t: string)
    ensures k < |str| ==> t == [str[k]]
    ensures t == "@" <==> k < |str| && str[k] == '@'
  {
    if k < |str| then [str[k]] else "undefined"
  }

  /** The text built by prepending `${str[k]}` for k from hi - 1 down to lo. */
  function Spelled(str: string, lo: nat, hi: nat): string
    decreases hi - lo
  {
    if hi <= lo then "" else CharText(str, lo) + Spelled(str, lo + 1, hi)
  }

  /** Inside the string, the spelled text is just the slice. */
  lemma {:induction false} SpelledInside(str: string, lo: nat, hi: nat)
    requires lo <= hi <= |str|
    ensures Spelled(str, lo, hi) == str[lo..hi]
    decreases hi - lo
  {
    if lo < hi {
      SpelledInside(str, lo + 1, hi);
    }
  }
}

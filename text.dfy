/**
 * Character and string helpers shared by the scripts: ASCII case folding,
 * the whitespace classes of Python and JavaScript, strip/trim, whitespace
 * splitting, joining and substring tests.
 */
module Text {

  /** Whose notion of whitespace a strip, trim or split uses. */
  datatype Lang = Python | JavaScript

  /**
   * ASCII whitespace. Python's `str.isspace` (used by `strip`, `split` and
   * the regular expression class `\s`) also counts the separators
   * U+001C..U+001F; JavaScript's `trim` does not.
   */
  predicate IsSpace(lang: Lang, c: char) {
    c == ' ' || c == '\t' || c == '\n' || c == '\r' || c == '\U{000B}' || c == '\U{000C}'
    || (lang == Python && '\U{001C}' <= c <= '\U{001F}')
  }

  predicate IsUpper(c: char) {
    'A' <= c <= 'Z'
  }

  predicate IsDigit(c: char) {
    '0' <= c <= '9'
  }

  /** The ASCII word class `\w`: letters, digits and the underscore. */
  predicate IsWordChar(c: char) {
    'a' <= c <= 'z' || IsUpper(c) || IsDigit(c) || c == '_'
  }

  function LowerChar(c: char): (d: char)
    ensures !IsUpper(d)
    ensures !IsUpper(c) ==> d == c
    ensures IsWordChar(c) <==> IsWordChar(d)
  {
    if IsUpper(c) then (c as int + 32) as char else c
  }

  /** `str.lower()` / `String.prototype.toLowerCase()` on ASCII. */
  function Lower(s: string): (r: string)
    ensures |r| == |s|
    ensures forall i :: 0 <= i < |s| ==> r[i] == LowerChar(s[i])
    ensures forall i :: 0 <= i < |r| ==> !IsUpper(r[i])
  {
    seq(|s|, i requires 0 <= i < |s| => LowerChar(s[i]))
  }

  lemma LowerOfLower(s: string)
    requires forall i :: 0 <= i < |s| ==> !IsUpper(s[i])
    ensures Lower(s) == s
  {
  }

  predicate AllSpace(lang: Lang, s: string) {
    forall i :: 0 <= i < |s| ==> IsSpace(lang, s[i])
  }

  predicate NoSpace(lang: Lang, s: string) {
    forall i :: 0 <= i < |s| ==> !IsSpace(lang, s[i])
  }

  /** The end of the whitespace run of `s` that starts at `start`. */
  function SpaceRunFrom(lang: Lang, s: string, start: nat): (n: nat)
    requires start <= |s|
    ensures start <= n <= |s|
    ensures forall k :: start <= k < n ==> IsSpace(lang, s[k])
    ensures n < |s| ==> !IsSpace(lang, s[n])
    decreases |s| - start
  {
    if start < |s| && IsSpace(lang, s[start]) then SpaceRunFrom(lang, s, start + 1) else start
  }

  /** The start of the whitespace run of `s` that ends at `end`, going no lower than `low`. */
  function SpaceRunDownTo(lang: Lang, s: string, low: nat, end: nat): (m: nat)
    requires low <= end <= |s|
    ensures low <= m <= end
    ensures forall k :: m <= k < end ==> IsSpace(lang, s[k])
    ensures m > low ==> !IsSpace(lang, s[m - 1])
    decreases end - low
  {
    if end > low && IsSpace(lang, s[end - 1]) then SpaceRunDownTo(lang, s, low, end - 1) else end
  }

  /**
   * `str.strip()` (Python) / `String.prototype.trim()` (JavaScript): `s`
   * without its leading and trailing whitespace.
   */
  function Strip(lang: Lang, s: string): (r: string)
    ensures r == "" || (!IsSpace(lang, r[0]) && !IsSpace(lang, r[|r| - 1]))
    ensures var i := SpaceRunFrom(lang, s, 0);
            i + |r| <= |s| && s[i..i + |r|] == r && AllSpace(lang, s[..i]) && AllSpace(lang, s[i + |r|..])
  {
    var i := SpaceRunFrom(lang, s, 0);
    var j := SpaceRunDownTo(lang, s, i, |s|);
    s[i..j]
  }

  /** Stripping yields the empty string exactly when `s` is all whitespace. */
  lemma StripEmpty(lang: Lang, s: string)
    ensures Strip(lang, s) == "" <==> AllSpace(lang, s)
  {
  }

  /** Length of the run of non-whitespace characters that starts `s`. */
  function WordLength(lang: Lang, s: string): (n: nat)
    ensures n <= |s| && NoSpace(lang, s[..n])
    ensures n < |s| ==> IsSpace(lang, s[n])
  {
    if |s| > 0 && !IsSpace(lang, s[0]) then 1 + WordLength(lang, s[1..]) else 0
  }

  /** `str.split()` with no separator: the maximal runs of non-whitespace characters. */
  function Split(lang: Lang, s: string): (words: seq<string>)
    ensures forall w <- words :: w != "" && NoSpace(lang, w)
    ensures forall w <- words, c <- w :: c in s
    decreases |s|
  {
    if s == [] then []
    else if IsSpace(lang, s[0]) then
      var rest := Split(lang, s[1..]);
      assert forall c <- s[1..] :: c in s;
      rest
    else
      var n := WordLength(lang, s);
      assert n > 0;
      var rest := Split(lang, s[n..]);
      assert forall c <- s[n..] :: c in s;
      assert forall c <- s[..n] :: c in s;
      [s[..n]] + rest
  }

  /** `sep.join(parts)` (Python) / `parts.join(sep)` (JavaScript). */
  function Join(parts: seq<string>, sep: string): (r: string)
    ensures |parts| == 1 ==> r == parts[0]
  {
    if |parts| == 0 then ""
    else if |parts| == 1 then parts[0]
    else parts[0] + sep + Join(parts[1..], sep)
  }

  /** Where part `i` starts in `Join(parts, sep)`: after each earlier part and its separator. */
  function JoinOffset(parts: seq<string>, sep: string, i: nat): nat
    requires i <= |parts|
  {
    if i == 0 then 0 else |parts[0]| + |sep| + JoinOffset(parts[1..], sep, i - 1)
  }

  /** Every part appears in the joined string, at its offset. */
  lemma {:induction false} JoinPartAt(parts: seq<string>, sep: string, i: nat)
    requires i < |parts|
    ensures OccursAt(Join(parts, sep), parts[i], JoinOffset(parts, sep, i))
  {
    if |parts| > 1 {
      var head := parts[0] + sep;
      var rest := Join(parts[1..], sep);
      assert Join(parts, sep) == head + rest;
      if i == 0 {
        SlicePrefix(parts[0], sep + rest);
        assert head + rest == parts[0] + (sep + rest);
      } else {
        JoinPartAt(parts[1..], sep, i - 1);
        assert parts[1..][i - 1] == parts[i];
        SliceShift(head, rest, JoinOffset(parts[1..], sep, i - 1), |parts[i]|);
      }
    }
  }

  lemma SlicePrefix<T>(a: seq<T>, b: seq<T>)
    ensures (a + b)[..|a|] == a
  {
  }

  lemma SliceShift<T>(a: seq<T>, b: seq<T>, k: nat, len: nat)
    requires k + len <= |b|
    ensures (a + b)[|a| + k..|a| + k + len] == b[k..k + len]
  {
  }

  predicate StartsWith(s: string, prefix: string) {
    |prefix| <= |s| && s[..|prefix|] == prefix
  }

  /** `pattern` occurs in `s` as a contiguous substring. */
  predicate Contains(s: string, pattern: string) {
    exists k :: 0 <= k <= |s| - |pattern| && OccursAt(s, pattern, k)
  }

  predicate OccursAt(s: string, pattern: string, k: int) {
    0 <= k <= |s| - |pattern| && s[k..k + |pattern|] == pattern
  }
}

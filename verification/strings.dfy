/** The few Python string operations the core depends on: `str.endswith`,
    `str.replace` of one character by another, `str.lstrip(chars)` (which
    strips a character SET, not a prefix) and `os.path.join` of two
    components. The join is `posixpath.join` with the separator as a
    parameter; it is exact for `/` only, since with `\` it models neither
    `posixpath` nor `ntpath` (no drive letters, no `/` as an alternative
    separator). Strings are sequences of characters; there is no encoding or
    normalisation. */
module Strings {

  /** `s.endswith(suffix)`; the empty suffix always matches. */
  predicate EndsWith(s: string, suffix: string) {
    |suffix| <= |s| && s[|s| - |suffix|..] == suffix
  }

  /** `s.startswith(prefix)`. */
  predicate StartsWith(s: string, prefix: string) {
    |prefix| <= |s| && s[..|prefix|] == prefix
  }

  /** The set of characters occurring in `s`, which is how `lstrip`
      reads its argument. */
  function CharsOf(s: string): set<char>
  {
    set c | c in s
  }

  /** `s.replace(a, b)` for single characters `a` and `b`: every `a` becomes
      `b`, everything else is kept in place. */
  function ReplaceChar(s: string, a: char, b: char): (r: string)
    ensures |r| == |s|
    ensures forall i :: 0 <= i < |s| ==> r[i] == (if s[i] == a then b else s[i])
    ensures a !in r || a == b
  {
    if |s| == 0 then [] else [if s[0] == a then b else s[0]] + ReplaceChar(s[1..], a, b)
  }

  /** `s.lstrip(chars)`: drops leading characters while they belong to
      `chars`. */
  function LStrip(s: string, chars: set<char>): string
  {
    if |s| > 0 && s[0] in chars then LStrip(s[1..], chars) else s
  }

  /** What `lstrip` leaves is the suffix of `s` after removing the LONGEST
      prefix made only of characters in `chars`. */
  lemma {:induction false} LStripIsLongestStrip(s: string, chars: set<char>)
    ensures EndsWith(s, LStrip(s, chars))
    ensures forall i :: 0 <= i < |s| - |LStrip(s, chars)| ==> s[i] in chars
    ensures |LStrip(s, chars)| == 0 || LStrip(s, chars)[0] !in chars
  {
    if |s| > 0 && s[0] in chars {
      LStripIsLongestStrip(s[1..], chars);
    }
  }

  /** Removes `prefix` from the front of `s` when it is there, otherwise
      leaves `s` alone (Python's `str.removeprefix`). */
  function StripPrefix(s: string, prefix: string): (r: string)
    ensures StartsWith(s, prefix) ==> prefix + r == s
    ensures !StartsWith(s, prefix) ==> r == s
  {
    if StartsWith(s, prefix) then s[|prefix|..] else s
  }

  /** `os.path.join(a, b)` as `posixpath.join` with separator `sep`: an
      absolute `b` replaces `a`; otherwise a separator is inserted unless `a`
      is empty or already ends with one. */
  function Join(a: string, b: string, sep: char): string
  {
    if |b| > 0 && b[0] == sep then b
    else if |a| == 0 || a[|a| - 1] == sep then a + b
    else a + [sep] + b
  }

  /** Leading characters that all belong to `chars` are stripped one by one. */
  lemma {:induction false} LStripSkips(s: string, chars: set<char>, k: nat)
    requires k <= |s|
    requires forall i :: 0 <= i < k ==> s[i] in chars
    ensures LStrip(s, chars) == LStrip(s[k..], chars)
  {
    if k > 0 {
      assert s[1..][k - 1..] == s[k..];
      LStripSkips(s[1..], chars, k - 1);
    }
  }
}

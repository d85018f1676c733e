/**
 * The few pieces of JavaScript string semantics that `getAllPosts` relies on:
 * the regular-expression classes `\s` and `.` (without the `s` flag), and
 * `String.prototype.endsWith`. Strings are sequences of characters; the
 * UTF-16 code-unit view of JavaScript makes no difference for the characters
 * used here, all of which lie in the Basic Multilingual Plane.
 */
module JsText {

  /** The characters JavaScript treats as line terminators. */
  predicate IsLineTerminator(c: char) {
    c == '\n' || c == '\r' || c == '\U{2028}' || c == '\U{2029}'
  }

  /** The regular-expression class `\s`: white space plus line terminators. */
  predicate IsSpace(c: char) {
    || c == '\t' || c == '\U{000B}' || c == '\U{000C}' || c == ' '
    || c == '\U{00A0}' || c == '\U{1680}'
    || ('\U{2000}' <= c <= '\U{200A}')
    || c == '\U{202F}' || c == '\U{205F}' || c == '\U{3000}' || c == '\U{FEFF}'
    || IsLineTerminator(c)
  }

  /** The regular-expression atom `.` without the `s` flag: any character but a line terminator. */
  predicate IsDot(c: char) {
    !IsLineTerminator(c)
  }

  /** `s.endsWith(suffix)`. */
  predicate EndsWith(s: string, suffix: string) {
    |suffix| <= |s| && s[|s| - |suffix|..] == suffix
  }

  /** `t` holds the literal `w` starting at index `i`. */
  predicate LiteralAt(t: string, i: nat, w: string) {
    i + |w| <= |t| && t[i..i + |w|] == w
  }

  /** Every character of `t[a..b]` is in `\s`. */
  ghost predicate AllSpaces(t: string, a: nat, b: nat)
    requires a <= b <= |t|
  {
    forall k :: a <= k < b ==> IsSpace(t[k])
  }

  /**
   * The end of the longest run of `\s` characters starting at `i`: what a
   * greedy `\s*` consumes from `i`.
   */
  function SkipSpaces(t: string, i: nat): (r: nat)
    requires i <= |t|
    ensures i <= r <= |t|
    decreases |t| - i
  {
    if i < |t| && IsSpace(t[i]) then SkipSpaces(t, i + 1) else i
  }

  /** SkipSpaces stops at the end of the run: everything it skips is `\s`, and the next character is not. */
  lemma {:induction false} SkipSpacesRun(t: string, i: nat)
    requires i <= |t|
    ensures AllSpaces(t, i, SkipSpaces(t, i))
    ensures SkipSpaces(t, i) == |t| || !IsSpace(t[SkipSpaces(t, i)])
    decreases |t| - i
  {
    if i < |t| && IsSpace(t[i]) {
      SkipSpacesRun(t, i + 1);
    }
  }

  /**
   * A run of white space that is followed by a non-space character is the
   * longest run from its start: so no shorter split of `\s+` can be followed
   * by a word that begins with a non-space character.
   */
  lemma SkipSpacesUnique(t: string, i: nat, j: nat)
    requires i <= j < |t|
    requires AllSpaces(t, i, j) && !IsSpace(t[j])
    ensures SkipSpaces(t, i) == j
  {
    SkipSpacesRun(t, i);
  }
}

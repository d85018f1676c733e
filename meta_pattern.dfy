/**
 * The metadata pattern of `getAllPosts`,
 *
 *     /export\s+const\s+meta\s+=\s+(\{(\n|.)*?\n\})/
 *
 * and what `META.exec(contents)` returns for it: the leftmost match, with the
 * greedy `\s+` runs and the lazy `(\n|.)*?` resolved the way a backtracking
 * engine resolves them, and capture group 1.
 *
 * The executable side (HeaderFrom, LazyClose, MatchAt, Exec) scans the text.
 * The declarative side (Spans, Pattern) says which substrings the pattern
 * matches at all; the lemmas show that the scan returns the match the engine
 * prefers: the leftmost start, and at that start the shortest body.
 */
module MetaPattern {
  import opened JsText
  import opened Maybe

  /** The words of the pattern before the opening brace, each followed by `\s+`. */
  const Words: seq<string> := ["export", "const", "meta", "="]

  /** A match: where it starts, where its `{` is, and where its closing `\n}` begins. */
  datatype Match = Match(start: nat, brace: nat, close: nat)

  /** No word is empty or starts with white space, so `\s+` before it cannot give characters back. */
  predicate WordsWellFormed(words: seq<string>) {
    forall w :: w in words ==> |w| > 0 && !IsSpace(w[0])
  }

  /** A character matched by `(\n|.)`: anything but `\r`, U+2028 and U+2029. */
  predicate IsBodyChar(c: char) {
    c == '\n' || IsDot(c)
  }

  /** `\n\}` matches at index `k`. */
  predicate CloseAt(t: string, k: nat) {
    k + 2 <= |t| && t[k] == '\n' && t[k + 1] == '}'
  }

  /** `(\n|.)*` can consume `t[a..c]`. */
  ghost predicate AllBody(t: string, a: nat, c: nat)
    requires a <= c <= |t|
  {
    forall m :: a <= m < c ==> IsBodyChar(t[m])
  }

  // ---------------------------------------------------------------------------
  // Declarative: which substrings the pattern matches.

  /**
   * `t[i..b]` matches `words[0]\s+words[1]\s+...\s+` (some split of the white
   * space, not necessarily the greedy one) and `t[b]` is `{`.
   */
  ghost predicate Spans(t: string, i: nat, words: seq<string>, b: nat)
    decreases |words|
  {
    if words == [] then
      i == b && b < |t| && t[b] == '{'
    else
      LiteralAt(t, i, words[0]) &&
      exists j :: i + |words[0]| < j <= |t| && AllSpaces(t, i + |words[0]|, j) && Spans(t, j, words[1..], b)
  }

  /**
   * The whole pattern matches `t[i..k + 2]` with its `{` at `b` and its
   * final `\n}` at `k`.
   */
  ghost predicate Pattern(t: string, i: nat, b: nat, k: nat) {
    Spans(t, i, Words, b) && b < k && CloseAt(t, k) && AllBody(t, b + 1, k)
  }

  // ---------------------------------------------------------------------------
  // Executable: the scan.

  /**
   * Matches `words[0]\s+...\s+\{` at `i`, taking every `\s+` greedily, and
   * returns the index of the `{`.
   */
  function HeaderFrom(t: string, i: nat, words: seq<string>): (r: Option<nat>)
    ensures r.Some? ==> i <= r.value < |t| && t[r.value] == '{'
    decreases |words|
  {
    if words == [] then
      if i < |t| && t[i] == '{' then Some(i) else None
    else if !LiteralAt(t, i, words[0]) then
      None
    else
      var a := i + |words[0]|;
      var j := SkipSpaces(t, a);
      if j == a then None else HeaderFrom(t, j, words[1..])
  }

  /**
   * The lazy `(\n|.)*?\n\}` from index `k`: tries `\n\}` first and consumes
   * one more body character only when that fails. Returns where `\n}` begins.
   */
  function LazyClose(t: string, k: nat): (r: Option<nat>)
    requires k <= |t|
    ensures r.Some? ==> k <= r.value && CloseAt(t, r.value) && AllBody(t, k, r.value)
    ensures r.Some? ==> forall c :: k <= c < r.value ==> !CloseAt(t, c)
    ensures r.None? ==> forall c :: k <= c && CloseAt(t, c) ==> !AllBody(t, k, c)
    decreases |t| - k
  {
    if CloseAt(t, k) then Some(k)
    else if k < |t| && IsBodyChar(t[k]) then LazyClose(t, k + 1)
    else None
  }

  /** The match the engine finds when it tries the pattern at index `i`. */
  function MatchAt(t: string, i: nat): (r: Option<Match>)
    ensures r.Some? ==> r.value.start == i && r.value.brace < r.value.close && CloseAt(t, r.value.close)
    ensures r.Some? ==> t[r.value.brace] == '{' && AllBody(t, r.value.brace + 1, r.value.close)
    ensures r.Some? ==> forall c :: r.value.brace < c < r.value.close ==> !CloseAt(t, c)
  {
    match HeaderFrom(t, i, Words)
    case None => None
    case Some(b) =>
      match LazyClose(t, b + 1)
      case None => None
      case Some(k) => Some(Match(i, b, k))
  }

  /** `exec` from index `i` on: tries the pattern at each start position in turn, left to right. */
  function ExecFrom(t: string, i: nat): (r: Option<Match>)
    requires i <= |t|
    ensures r.Some? ==> i <= r.value.start <= |t| && MatchAt(t, r.value.start) == r
    decreases |t| - i
  {
    match MatchAt(t, i)
    case Some(m) => Some(m)
    case None => if i < |t| then ExecFrom(t, i + 1) else None
  }

  /** `META.exec(contents)`. */
  function Exec(t: string): (r: Option<Match>)
    ensures r.Some? ==> r.value.start <= |t| && MatchAt(t, r.value.start) == r
  {
    ExecFrom(t, 0)
  }

  /** `exec` passes over a start position only when the pattern does not match there. */
  lemma {:induction false} ExecFromSkips(t: string, i: nat, s: nat)
    requires i <= s <= |t|
    requires ExecFrom(t, i).None? || s < ExecFrom(t, i).value.start
    ensures MatchAt(t, s).None?
    decreases s - i
  {
    ExecFromNext(t, i);
    if s > i {
      ExecFromSkips(t, i + 1, s);
    }
  }

  /** One step of the scan: a start that `exec` passes over has no match, and the scan goes on from the next one. */
  lemma ExecFromNext(t: string, i: nat)
    requires i <= |t|
    requires ExecFrom(t, i).None? || i < ExecFrom(t, i).value.start
    ensures MatchAt(t, i).None?
    ensures i < |t| ==> ExecFrom(t, i) == ExecFrom(t, i + 1)
  {
  }

  /**
   * What `(\{(\n|.)*?\n\})` can capture: `{`, then body characters, then the
   * first `\n}` after the brace, with no earlier `\n}` inside.
   */
  predicate LazyGroup(g: string) {
    && |g| >= 3 && g[0] == '{' && g[|g| - 2..] == "\n}"
    && (forall c :: 0 <= c < |g| - 2 ==> !(g[c] == '\n' && g[c + 1] == '}'))
    && (forall c :: 0 <= c < |g| ==> IsBodyChar(g[c]))
  }

  /**
   * Capture group 1 of `META.exec(contents)`, or None when there is no match.
   * The captured text runs from `{` to the FIRST `\n}` after it, and holds no
   * `\r`, U+2028 or U+2029.
   */
  function Capture(t: string): (r: Option<string>)
    ensures r.Some? ==> LazyGroup(r.value)
    ensures r.None? <==> Exec(t).None?
    ensures r.Some? ==> r.value == t[Exec(t).value.brace..Exec(t).value.close + 2]
  {
    match Exec(t)
    case None => None
    case Some(m) => Some(Group(t, m))
  }

  /**
   * The brace at `b` and the closing `\n}` at `k` are what the lazy body
   * leaves: body characters between them, and no earlier `\n}`.
   */
  ghost predicate LazyMatch(t: string, b: nat, k: nat) {
    && b < k && CloseAt(t, k) && t[b] == '{' && AllBody(t, b + 1, k)
    && (forall c :: b < c < k ==> !CloseAt(t, c))
  }

  /** Capture group 1 of a match found by the scan: `t[brace..close + 2]`. */
  function Group(t: string, m: Match): (g: string)
    requires LazyMatch(t, m.brace, m.close)
    ensures m.brace < m.close + 2 <= |t| && g == t[m.brace..m.close + 2]
    ensures LazyGroup(g)
  {
    GroupOne(t, m.brace, m.close);
    t[m.brace..m.close + 2]
  }

  /** What the lazy body makes of capture group 1 `t[b..k + 2]`. */
  lemma GroupOne(t: string, b: nat, k: nat)
    requires LazyMatch(t, b, k)
    ensures LazyGroup(t[b..k + 2])
  {
    var g := t[b..k + 2];
    forall c | 0 <= c < |g| - 2 ensures !(g[c] == '\n' && g[c + 1] == '}') {
      if c > 0 {
        assert !CloseAt(t, b + c);
      }
    }
    forall c | 0 <= c < |g| ensures IsBodyChar(g[c]) {
      if 0 < c < |g| - 2 {
        assert IsBodyChar(t[b + c]);
      }
    }
  }

  // ---------------------------------------------------------------------------
  // The scan returns the match the engine prefers.

  /** What a declarative span starts with: a non-space character. */
  lemma {:induction false} SpansStart(t: string, i: nat, words: seq<string>, b: nat)
    requires WordsWellFormed(words) && Spans(t, i, words, b)
    ensures i < |t| && !IsSpace(t[i])
  {
    if words != [] {
      assert t[i..i + |words[0]|][0] == t[i];
    }
  }

  /**
   * Taking each `\s+` greedily loses no match: the greedy header scan finds
   * the brace at `b` exactly when some split of the white space does.
   */
  lemma {:induction false} HeaderFromSpans(t: string, i: nat, words: seq<string>, b: nat)
    requires WordsWellFormed(words)
    ensures HeaderFrom(t, i, words) == Some(b) <==> Spans(t, i, words, b)
    decreases |words|
  {
    if words != [] && LiteralAt(t, i, words[0]) {
      var a := i + |words[0]|;
      var j := SkipSpaces(t, a);
      assert WordsWellFormed(words[1..]) by {
        forall w | w in words[1..] ensures |w| > 0 && !IsSpace(w[0]) {
          assert w in words;
        }
      }
      if HeaderFrom(t, i, words) == Some(b) {
        SkipSpacesRun(t, a);
        HeaderFromSpans(t, j, words[1..], b);
        assert Spans(t, j, words[1..], b);
      }
      if Spans(t, i, words, b) {
        var j' :| a < j' <= |t| && AllSpaces(t, a, j') && Spans(t, j', words[1..], b);
        SpansStart(t, j', words[1..], b);
        SkipSpacesUnique(t, a, j');
        HeaderFromSpans(t, j', words[1..], b);
      }
    }
  }

  /** The pattern can only match where the text still holds `export`. */
  lemma PatternInText(t: string, i: nat, b: nat, k: nat)
    requires Pattern(t, i, b, k)
    ensures i < |t|
  {
    assert LiteralAt(t, i, Words[0]);
  }

  /** None of the pattern's words is empty or starts with white space. */
  lemma WordsOk()
    ensures WordsWellFormed(Words)
  {
  }

  /** Wherever the pattern matches, the greedy header scan finds its brace. */
  lemma HeaderOfPattern(t: string, i: nat, b: nat, k: nat)
    requires Pattern(t, i, b, k)
    ensures HeaderFrom(t, i, Words) == Some(b)
  {
    WordsOk();
    HeaderFromSpans(t, i, Words, b);
  }

  /**
   * The match found at `i` is the engine's: the pattern matches there, and
   * any other match at `i` has the same brace and a body at least as long
   * (lazy `*?`). When none is found, the pattern does not match at `i`.
   */
  lemma MatchAtFacts(t: string, i: nat)
    ensures MatchAt(t, i).Some? ==>
      var m := MatchAt(t, i).value;
      Pattern(t, i, m.brace, m.close) &&
      forall b, k :: Pattern(t, i, b, k) ==> b == m.brace && m.close <= k
    ensures MatchAt(t, i).None? <==> forall b, k :: !Pattern(t, i, b, k)
  {
    forall b, k | Pattern(t, i, b, k)
      ensures MatchAt(t, i).Some? && MatchAt(t, i).value.brace == b && MatchAt(t, i).value.close <= k
    {
      HeaderOfPattern(t, i, b, k);
    }
    if MatchAt(t, i).Some? {
      var m := MatchAt(t, i).value;
      WordsOk();
      HeaderFromSpans(t, i, Words, m.brace);
    }
  }

  /** Where `META.exec` finds no match, the pattern does not match at all. */
  lemma ExecLeftmost(t: string, i: nat, b: nat, k: nat)
    requires Exec(t).None? || i < Exec(t).value.start
    ensures !Pattern(t, i, b, k)
  {
    if Pattern(t, i, b, k) {
      PatternInText(t, i, b, k);
      ExecFromSkips(t, 0, i);
      MatchAtFacts(t, i);
    }
  }

  /** When `META.exec` finds a match, the pattern matches there. */
  lemma ExecMatches(t: string)
    requires Exec(t).Some?
    ensures Pattern(t, Exec(t).value.start, Exec(t).value.brace, Exec(t).value.close)
  {
    MatchAtFacts(t, Exec(t).value.start);
  }

  /**
   * At the start `META.exec` picks, every match has the same brace and a body
   * at least as long: the lazy `*?` takes the shortest.
   */
  lemma ExecLazy(t: string, b: nat, k: nat)
    requires Exec(t).Some? && Pattern(t, Exec(t).value.start, b, k)
    ensures b == Exec(t).value.brace && Exec(t).value.close <= k
  {
    MatchAtFacts(t, Exec(t).value.start);
  }

  /**
   * When `META.exec` finds a match, it is the leftmost, laziest one: the
   * pattern matches there, it matches nowhere to the left, and at that start
   * every match has the same brace and a body at least as long.
   */
  lemma ExecIsLeftmostLazy(t: string)
    requires Exec(t).Some?
    ensures Pattern(t, Exec(t).value.start, Exec(t).value.brace, Exec(t).value.close)
    ensures forall i: nat, b: nat, k: nat :: i < Exec(t).value.start ==> !Pattern(t, i, b, k)
    ensures forall b: nat, k: nat :: Pattern(t, Exec(t).value.start, b, k) ==>
      b == Exec(t).value.brace && Exec(t).value.close <= k
  {
    ExecMatches(t);
    forall i: nat, b: nat, k: nat | i < Exec(t).value.start ensures !Pattern(t, i, b, k) {
      ExecLeftmost(t, i, b, k);
    }
    forall b: nat, k: nat | Pattern(t, Exec(t).value.start, b, k)
      ensures b == Exec(t).value.brace && Exec(t).value.close <= k
    {
      ExecLazy(t, b, k);
    }
  }

  /** `META.exec` returns null exactly when the pattern matches nowhere in the text. */
  lemma ExecNoneIffNoPattern(t: string)
    ensures Exec(t).None? <==> forall i, b, k :: !Pattern(t, i, b, k)
  {
    if Exec(t).None? {
      forall i, b, k ensures !Pattern(t, i, b, k) {
        ExecLeftmost(t, i, b, k);
      }
    } else {
      ExecIsLeftmostLazy(t);
    }
  }

  /**
   * The match a backtracking engine reports: the pattern matches `t[i..k + 2]`
   * with its `{` at `b`, at no start left of `i`, and at `i` with no other
   * brace and no shorter body.
   */
  ghost predicate EngineMatch(t: string, i: nat, b: nat, k: nat) {
    && Pattern(t, i, b, k)
    && (forall i': nat, b': nat, k': nat :: i' < i ==> !Pattern(t, i', b', k'))
    && (forall b': nat, k': nat :: Pattern(t, i, b', k') ==> b' == b && k <= k')
  }

  /**
   * Capture group 1 is the text of the engine's match: absent exactly when
   * the pattern matches nowhere, and otherwise the characters from the `{`
   * to the closing `\n}` of the leftmost match, with the shortest body at
   * that start.
   */
  lemma CaptureIsLeftmostLazy(t: string)
    ensures Capture(t).None? <==> forall i, b, k :: !Pattern(t, i, b, k)
    ensures Capture(t).Some? ==> exists i: nat, b: nat, k: nat ::
      EngineMatch(t, i, b, k) && b < k + 2 <= |t| && Capture(t).value == t[b..k + 2]
  {
    ExecNoneIffNoPattern(t);
    if Exec(t).Some? {
      var m := Exec(t).value;
      ExecMatches(t);
      NoneLeftOf(t, m);
      NoneShorter(t, m);
      assert EngineMatch(t, m.start, m.brace, m.close);
    }
  }

  /** No match starts to the left of the one `exec` returns. */
  lemma NoneLeftOf(t: string, m: Match)
    requires Exec(t) == Some(m)
    ensures forall i': nat, b': nat, k': nat :: i' < m.start ==> !Pattern(t, i', b', k')
  {
    forall i': nat, b': nat, k': nat | i' < m.start ensures !Pattern(t, i', b', k') {
      ExecLeftmost(t, i', b', k');
    }
  }

  /** No match at the start `exec` picks has another brace or a shorter body. */
  lemma NoneShorter(t: string, m: Match)
    requires Exec(t) == Some(m)
    ensures forall b': nat, k': nat :: Pattern(t, m.start, b', k') ==> b' == m.brace && m.close <= k'
  {
    forall b': nat, k': nat | Pattern(t, m.start, b', k') ensures b' == m.brace && m.close <= k' {
      ExecLazy(t, b', k');
    }
  }
}

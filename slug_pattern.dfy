/**
 * The slug of a post file: `file.replace(/\.mdx?$/, '')`. A regular
 * expression without the `g` flag makes `replace` substitute its leftmost
 * match only; here the match, if any, is a `.md` or `.mdx` at the very end.
 */
module SlugPattern {
  import opened JsText
  import opened Maybe

  /**
   * `/\.mdx?$/` tried at index `p`: `.md`, then the greedy `x?` (which gives
   * its `x` back when `$` then fails), then `$`. Returns where the match ends.
   */
  function SuffixAt(s: string, p: nat): (r: Option<nat>) {
    if !LiteralAt(s, p, ".md") then None
    else if p + 4 == |s| && s[p + 3] == 'x' then Some(p + 4)
    else if p + 3 == |s| then Some(p + 3)
    else None
  }

  /** `replace` from index `p` on: removes the leftmost match at or after `p`. */
  function ReplaceFrom(s: string, p: nat): (r: string)
    decreases |s| + 1 - p
  {
    if p > |s| then s
    else
      match SuffixAt(s, p)
      case Some(e) => s[..p] + s[e..]
      case None => ReplaceFrom(s, p + 1)
  }

  /** `file.replace(/\.mdx?$/, '')`. */
  function Slug(file: string): (r: string) {
    ReplaceFrom(file, 0)
  }

  /** The pattern matches only a whole `.mdx` or `.md` suffix. */
  lemma SuffixAtIff(s: string, p: nat)
    ensures SuffixAt(s, p) ==
      if p + 4 == |s| && EndsWith(s, ".mdx") then Some(|s|)
      else if p + 3 == |s| && EndsWith(s, ".md") then Some(|s|)
      else None
  {
    if LiteralAt(s, p, ".md") {
      assert s[p] == '.' && s[p + 1] == 'm' && s[p + 2] == 'd' by {
        assert s[p..p + 3][0] == s[p] && s[p..p + 3][1] == s[p + 1] && s[p..p + 3][2] == s[p + 2];
      }
      if p + 4 == |s| && s[p + 3] == 'x' {
        assert s[|s| - 4..] == ".mdx";
      } else if p + 3 == |s| {
        assert s[|s| - 3..] == s[p..p + 3];
      }
    }
    if p + 4 == |s| && EndsWith(s, ".mdx") {
      assert s[p..p + 3] == s[|s| - 4..][..3];
      assert s[p + 3] == s[|s| - 4..][3];
    }
    if p + 3 == |s| && EndsWith(s, ".md") {
      assert s[p..p + 3] == s[|s| - 3..];
    }
  }

  /** No name ends in both `.mdx` and `.md`: their last characters differ. */
  lemma NotBothSuffixes(s: string)
    ensures !(EndsWith(s, ".mdx") && EndsWith(s, ".md"))
  {
    if EndsWith(s, ".mdx") {
      assert s[|s| - 1] == s[|s| - 4..][3] == 'x';
    }
  }

  /**
   * What `replace` leaves, from index `p` on: the name without its `.mdx` or
   * `.md` suffix when that suffix starts at or after `p`, the name unchanged
   * otherwise.
   */
  lemma {:induction false} ReplaceFromIs(s: string, p: nat)
    ensures ReplaceFrom(s, p) ==
      if EndsWith(s, ".mdx") && p + 4 <= |s| then s[..|s| - 4]
      else if EndsWith(s, ".md") && p + 3 <= |s| then s[..|s| - 3]
      else s
    decreases |s| + 1 - p
  {
    if p <= |s| {
      SuffixAtIff(s, p);
      if SuffixAt(s, p).None? {
        ReplaceFromIs(s, p + 1);
        NotBothSuffixes(s);
      } else {
        assert s[|s|..] == [];
      }
    }
  }

  /**
   * The slug of any name: the name minus a trailing `.mdx`, else minus a
   * trailing `.md`, else the name itself.
   */
  lemma SlugSpec(file: string)
    ensures Slug(file) ==
      if EndsWith(file, ".mdx") then file[..|file| - 4]
      else if EndsWith(file, ".md") then file[..|file| - 3]
      else file
  {
    ReplaceFromIs(file, 0);
  }

  /** For a post file (one ending in `.mdx`), the slug is the name without `.mdx`, and gives the name back. */
  lemma SlugOfArticle(file: string)
    requires EndsWith(file, ".mdx")
    ensures Slug(file) == file[..|file| - 4]
    ensures Slug(file) + ".mdx" == file
  {
    SlugSpec(file);
  }
}

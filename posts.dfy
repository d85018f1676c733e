/**
 * `getAllPosts`: list the post directory, keep the `.mdx` files, extract and
 * evaluate each one's `export const meta = {...}` block, attach the slug,
 * drop unpublished posts outside development mode, and sort newest first.
 *
 * The directory listing and file reads are the input `dir` (names with their
 * contents, in listing order); `process.env.NODE_ENV === 'development'` is
 * the input `isDev`; `eval` of the captured literal is the input `eval`,
 * which yields a record or None when the text does not evaluate.
 */
module Posts {
  import opened JsText
  import opened Maybe
  import MetaPattern
  import SlugPattern

  /** A directory entry: its name and its contents as decoded text. */
  datatype File = File(name: string, contents: string)

  /**
   * A post record: the publish time as a timestamp, the `published` flag as
   * its truthiness, and every other field (including `slug`) by name.
   */
  datatype BlogPost = BlogPost(publishedAt: int, published: bool, fields: map<string, string>)

  /**
   * Why the whole listing fails: the error thrown for a file without a
   * metadata block, which names the file, or the exception of `eval` itself,
   * which the callback does not catch and which names no file.
   */
  datatype Error =
    | MissingMeta(file: string)  // `${name} needs to export const meta = {}`
    | EvalFailed                 // `eval` of the captured literal threw

  datatype Result<T> = Ok(value: T) | Err(error: Error)

  /** `eval('(' + text + ')')`: the record the literal denotes, or None when it throws. */
  type Eval = string -> Option<BlogPost>

  /** Only names ending in `.mdx` are posts (`file.endsWith('.mdx')`). */
  predicate IsArticle(name: string) {
    EndsWith(name, ".mdx")
  }

  // ---------------------------------------------------------------------------
  // The stages of the pipeline.

  /** `fs.readdirSync(DIR).filter((file) => file.endsWith('.mdx'))`. */
  function Articles(dir: seq<File>): (r: seq<File>)
    ensures forall f :: f in r <==> f in dir && IsArticle(f.name)
    ensures |r| <= |dir|
  {
    if dir == [] then []
    else if IsArticle(dir[0].name) then [dir[0]] + Articles(dir[1..])
    else Articles(dir[1..])
  }

  /**
   * `{ ...meta, slug: file.replace(/\.mdx?$/, '') }`: every field of the
   * metadata, with `slug` set last so that the derived slug wins.
   */
  function Assemble(meta: BlogPost, file: string): (p: BlogPost)
    ensures "slug" in p.fields && p.fields["slug"] == SlugPattern.Slug(file)
    ensures p.fields.Keys == meta.fields.Keys + {"slug"}
    ensures forall k :: k in meta.fields && k != "slug" ==> p.fields[k] == meta.fields[k]
    ensures p.publishedAt == meta.publishedAt && p.published == meta.published
  {
    meta.(fields := meta.fields["slug" := SlugPattern.Slug(file)])
  }

  /** The callback of `files.map`: one post from one file, or the error that aborts the listing. */
  function LoadPost(f: File, eval: Eval): (r: Result<BlogPost>) {
    match MetaPattern.Capture(f.contents)
    case None => Err(MissingMeta(f.name))
    case Some(literal) =>
      match eval("(" + literal + ")")
      case None => Err(EvalFailed)
      case Some(meta) => Ok(Assemble(meta, f.name))
  }

  /**
   * `files.map(callback)` where the callback may throw: the results in
   * order, or the error of the first element whose callback throws; nothing
   * after it is looked at.
   */
  function MapAll<A, B>(xs: seq<A>, f: A -> Result<B>): (r: Result<seq<B>>)
    ensures r.Ok? ==> |r.value| == |xs|
    ensures r.Ok? ==> forall i :: 0 <= i < |xs| ==> f(xs[i]) == Ok(r.value[i])
    ensures r.Err? ==>
      exists i :: 0 <= i < |xs| && f(xs[i]) == Err(r.error) && forall j :: 0 <= j < i ==> f(xs[j]).Ok?
    ensures r.Ok? <==> forall i :: 0 <= i < |xs| ==> f(xs[i]).Ok?
  {
    if xs == [] then Ok([])
    else
      match f(xs[0])
      case Err(e) => Err(e)
      case Ok(y) =>
        match MapAll(xs[1..], f)
        case Err(e) =>
          var i :| 0 <= i < |xs[1..]| && f(xs[1..][i]) == Err(e) && forall j :: 0 <= j < i ==> f(xs[1..][j]).Ok?;
          assert f(xs[i + 1]) == Err(e);
          Err(e)
        case Ok(ys) => Ok([y] + ys)
  }

  /** `.filter((meta) => process.env.NODE_ENV === 'development' || meta.published)`. */
  function Visible(posts: seq<BlogPost>, isDev: bool): (r: seq<BlogPost>)
    ensures forall p :: multiset(r)[p] == if isDev || p.published then multiset(posts)[p] else 0
    ensures |r| <= |posts|
  {
    if posts == [] then []
    else
      assert posts == [posts[0]] + posts[1..];
      if isDev || posts[0].published then [posts[0]] + Visible(posts[1..], isDev)
      else Visible(posts[1..], isDev)
  }

  /** Newest first: no post is older than one after it. */
  predicate NewestFirst(s: seq<BlogPost>) {
    forall i, j :: 0 <= i < j < |s| ==> s[i].publishedAt >= s[j].publishedAt
  }

  /** Puts `p` into a newest-first sequence, in front of the first post no newer than it. */
  function Insert(p: BlogPost, s: seq<BlogPost>): (r: seq<BlogPost>)
    requires NewestFirst(s)
    ensures NewestFirst(r)
    ensures multiset(r) == multiset(s) + multiset{p}
  {
    if s == [] || s[0].publishedAt <= p.publishedAt then
      PrependNewest(p, s);
      [p] + s
    else
      var rest := Insert(p, s[1..]);
      assert s == [s[0]] + s[1..];
      NoNewerThan(rest, s[1..], p, s[0].publishedAt);
      PrependNewest(s[0], rest);
      [s[0]] + rest
  }

  /** A post at least as new as the first of a newest-first sequence can go in front of it. */
  lemma PrependNewest(x: BlogPost, r: seq<BlogPost>)
    requires NewestFirst(r) && (r == [] || r[0].publishedAt <= x.publishedAt)
    ensures NewestFirst([x] + r)
  {
    var q := [x] + r;
    forall i, j | 0 <= i < j < |q| ensures q[i].publishedAt >= q[j].publishedAt {
      assert q[j] == r[j - 1];
      if i > 0 {
        assert q[i] == r[i - 1];
      }
    }
  }

  /** Posts that are `s` plus `p`, in any order, are no newer than a bound that `p` and all of `s` respect. */
  lemma NoNewerThan(r: seq<BlogPost>, s: seq<BlogPost>, p: BlogPost, bound: int)
    requires multiset(r) == multiset(s) + multiset{p} && p.publishedAt <= bound
    requires forall j :: 0 <= j < |s| ==> s[j].publishedAt <= bound
    ensures forall j :: 0 <= j < |r| ==> r[j].publishedAt <= bound
  {
    forall j | 0 <= j < |r| ensures r[j].publishedAt <= bound {
      assert r[j] in multiset(r);
      if r[j] != p {
        assert r[j] in multiset(s);
      }
    }
  }

  /**
   * `.sort((a, b) => new Date(b.publishedAt).getTime() - new Date(a.publishedAt).getTime())`:
   * the same posts, newest first.
   */
  function SortByDate(s: seq<BlogPost>): (r: seq<BlogPost>)
    ensures NewestFirst(r)
    ensures multiset(r) == multiset(s)
  {
    if s == [] then []
    else
      assert s == [s[0]] + s[1..];
      Insert(s[0], SortByDate(s[1..]))
  }

  /** The `.mdx` files of the directory, each turned into a post, in listing order. */
  function LoadArticles(dir: seq<File>, eval: Eval): (r: Result<seq<BlogPost>>)
    ensures r.Ok? ==> |r.value| == |Articles(dir)|
    ensures r.Ok? ==> forall i :: 0 <= i < |r.value| ==> LoadPost(Articles(dir)[i], eval) == Ok(r.value[i])
  {
    MapAll(Articles(dir), (f: File) => LoadPost(f, eval))
  }

  /** `getAllPosts()`. */
  function GetAllPosts(dir: seq<File>, isDev: bool, eval: Eval): (r: Result<seq<BlogPost>>)
    ensures r.Ok? <==> LoadArticles(dir, eval).Ok?
    ensures r.Err? ==> r.error == LoadArticles(dir, eval).error
    ensures r.Ok? ==> NewestFirst(r.value)
    ensures r.Ok? ==> multiset(r.value) == multiset(Visible(LoadArticles(dir, eval).value, isDev))
  {
    match LoadArticles(dir, eval)
    case Err(e) => Err(e)
    case Ok(posts) => Ok(SortByDate(Visible(posts, isDev)))
  }

  // ---------------------------------------------------------------------------
  // What `getAllPosts` promises.

  /** Filtering by name distributes over concatenating directory listings. */
  lemma {:induction false} ArticlesAppend(a: seq<File>, b: seq<File>)
    ensures Articles(a + b) == Articles(a) + Articles(b)
  {
    if a == [] {
      assert a + b == b;
    } else {
      assert (a + b)[0] == a[0];
      assert (a + b)[1..] == a[1..] + b;
      ArticlesAppend(a[1..], b);
    }
  }

  /**
   * The filter keeps listing order: the `.mdx` files of a listing one entry
   * longer are those of the shorter listing followed by the new entry, if
   * its name ends in `.mdx`.
   */
  lemma ArticlesInListingOrder(dir: seq<File>, k: nat)
    requires k < |dir|
    ensures Articles(dir[..k + 1]) == Articles(dir[..k]) + (if IsArticle(dir[k].name) then [dir[k]] else [])
  {
    assert dir[..k + 1] == dir[..k] + [dir[k]];
    ArticlesAppend(dir[..k], [dir[k]]);
    assert [dir[k]][1..] == [];
  }

  /**
   * A file whose name does not end in `.mdx` is never read: adding it
   * anywhere to the directory, whatever its contents, changes nothing, not
   * even whether the call fails.
   */
  lemma OtherFilesIgnored(a: seq<File>, f: File, b: seq<File>, isDev: bool, eval: Eval)
    requires !IsArticle(f.name)
    ensures GetAllPosts(a + [f] + b, isDev, eval) == GetAllPosts(a + b, isDev, eval)
  {
    ArticlesAppend(a + [f], b);
    ArticlesAppend(a, [f]);
    ArticlesAppend(a, b);
    assert Articles([f]) == [];
    SameArticlesSameResult(a + [f] + b, a + b, isDev, eval);
  }

  /** The result depends on the directory only through its `.mdx` files. */
  lemma SameArticlesSameResult(dir: seq<File>, dir': seq<File>, isDev: bool, eval: Eval)
    requires Articles(dir) == Articles(dir')
    ensures GetAllPosts(dir, isDev, eval) == GetAllPosts(dir', isDev, eval)
  {
  }

  /** A post loaded from a file carries that file's slug, whatever `slug` its metadata had. */
  lemma LoadPostSlug(f: File, eval: Eval)
    requires LoadPost(f, eval).Ok?
    ensures "slug" in LoadPost(f, eval).value.fields
    ensures LoadPost(f, eval).value.fields["slug"] == SlugPattern.Slug(f.name)
  {
  }

  /**
   * A file loads exactly when the pattern finds its metadata block and the
   * captured literal evaluates; the post is then the evaluated record with
   * the file's slug added.
   */
  lemma LoadPostOk(f: File, eval: Eval)
    ensures LoadPost(f, eval).Ok? <==>
      MetaPattern.Capture(f.contents).Some? && eval("(" + MetaPattern.Capture(f.contents).value + ")").Some?
    ensures LoadPost(f, eval).Ok? ==>
      LoadPost(f, eval).value == Assemble(eval("(" + MetaPattern.Capture(f.contents).value + ")").value, f.name)
  {
  }

  /**
   * A file that fails to load gives the missing-metadata error, naming it,
   * exactly when the pattern finds nothing, and otherwise the evaluation
   * error, exactly when the captured literal does not evaluate.
   */
  lemma LoadPostError(f: File, eval: Eval)
    requires LoadPost(f, eval).Err?
    ensures LoadPost(f, eval).error.MissingMeta? <==> MetaPattern.Capture(f.contents).None?
    ensures LoadPost(f, eval).error.MissingMeta? ==> LoadPost(f, eval).error.file == f.name
    ensures LoadPost(f, eval).error.EvalFailed? <==>
      MetaPattern.Capture(f.contents).Some? && eval("(" + MetaPattern.Capture(f.contents).value + ")").None?
  {
  }

  /** Loading succeeds exactly when every `.mdx` file of the directory loads. */
  lemma LoadArticlesOk(dir: seq<File>, eval: Eval)
    ensures LoadArticles(dir, eval).Ok? <==> forall f :: f in dir && IsArticle(f.name) ==> LoadPost(f, eval).Ok?
  {
    var files := Articles(dir);
    if LoadArticles(dir, eval).Ok? {
      forall f | f in dir && IsArticle(f.name) ensures LoadPost(f, eval).Ok? {
        var i :| 0 <= i < |files| && files[i] == f;
      }
    }
  }

  /**
   * All or nothing: the call succeeds exactly when every `.mdx` file of the
   * directory has a metadata block that evaluates; published or not, one bad
   * file fails the whole call.
   */
  lemma AllOrNothing(dir: seq<File>, isDev: bool, eval: Eval)
    ensures GetAllPosts(dir, isDev, eval).Ok? <==> forall f :: f in dir && IsArticle(f.name) ==> LoadPost(f, eval).Ok?
  {
    LoadArticlesOk(dir, eval);
  }

  /** A `.mdx` file without `export const meta = {...}` fails the call, in either mode. */
  lemma MissingMetaFails(dir: seq<File>, isDev: bool, eval: Eval, f: File)
    requires f in dir && IsArticle(f.name) && MetaPattern.Capture(f.contents).None?
    ensures GetAllPosts(dir, isDev, eval).Err?
  {
    AllOrNothing(dir, isDev, eval);
  }

  /** A `.mdx` file whose metadata block does not evaluate fails the call, in either mode. */
  lemma MalformedMetaFails(dir: seq<File>, isDev: bool, eval: Eval, f: File)
    requires f in dir && IsArticle(f.name) && MetaPattern.Capture(f.contents).Some?
    requires eval("(" + MetaPattern.Capture(f.contents).value + ")").None?
    ensures GetAllPosts(dir, isDev, eval).Err?
  {
    LoadPostOk(f, eval);
    AllOrNothing(dir, isDev, eval);
  }

  /**
   * A failed call reports the first `.mdx` file, in listing order, that
   * fails to load, with that file's own error; a missing-metadata error
   * names that file.
   */
  lemma FailureNamesFirstBadFile(dir: seq<File>, isDev: bool, eval: Eval)
    requires GetAllPosts(dir, isDev, eval).Err?
    ensures var e := GetAllPosts(dir, isDev, eval).error;
      exists i :: 0 <= i < |Articles(dir)| && LoadPost(Articles(dir)[i], eval) == Err(e) &&
        (e.MissingMeta? ==> e.file == Articles(dir)[i].name) &&
        forall j :: 0 <= j < i ==> LoadPost(Articles(dir)[j], eval).Ok?
  {
    var files := Articles(dir);
    var e := GetAllPosts(dir, isDev, eval).error;
    var i :| 0 <= i < |files| && LoadPost(files[i], eval) == Err(e) &&
      forall j :: 0 <= j < i ==> LoadPost(files[j], eval).Ok?;
    LoadPostError(files[i], eval);
  }

  /** Every returned post was loaded from a `.mdx` file of the directory (and kept by the filter). */
  lemma {:induction false} ReturnedPostsLoaded(dir: seq<File>, isDev: bool, eval: Eval, p: BlogPost)
    requires GetAllPosts(dir, isDev, eval).Ok? && p in GetAllPosts(dir, isDev, eval).value
    ensures exists f :: f in dir && IsArticle(f.name) && LoadPost(f, eval) == Ok(p)
    ensures isDev || p.published
  {
    var posts := LoadArticles(dir, eval).value;
    var r := GetAllPosts(dir, isDev, eval).value;
    assert multiset(r)[p] > 0;
    assert multiset(Visible(posts, isDev))[p] > 0;
    assert p in posts;
    var i :| 0 <= i < |posts| && posts[i] == p;
    var f := Articles(dir)[i];
    assert LoadPost(f, eval) == Ok(p);
  }

  /**
   * `p` is what the metadata block of `f` evaluates to, as far as the rest of
   * the listing sees it: the same `publishedAt` and `published`, and every
   * field of the metadata except `slug`.
   */
  predicate HasMetadataOf(p: BlogPost, f: File, eval: Eval) {
    && MetaPattern.Capture(f.contents).Some?
    && eval("(" + MetaPattern.Capture(f.contents).value + ")").Some?
    && var meta := eval("(" + MetaPattern.Capture(f.contents).value + ")").value;
       && p.publishedAt == meta.publishedAt && p.published == meta.published
       && forall k :: k in meta.fields && k != "slug" ==> k in p.fields && p.fields[k] == meta.fields[k]
  }

  /** A post loaded from a file has that file's evaluated metadata. */
  lemma LoadedHasMetadata(f: File, eval: Eval)
    requires LoadPost(f, eval).Ok?
    ensures HasMetadataOf(LoadPost(f, eval).value, f, eval)
  {
    LoadPostOk(f, eval);
  }

  /**
   * Every returned post is the evaluated metadata of a `.mdx` file of the
   * directory: it has that metadata's `publishedAt` and `published`, and
   * every field of it except `slug`.
   */
  lemma ReturnedPostsCarryMetadata(dir: seq<File>, isDev: bool, eval: Eval, p: BlogPost)
    requires GetAllPosts(dir, isDev, eval).Ok? && p in GetAllPosts(dir, isDev, eval).value
    ensures exists f :: f in dir && IsArticle(f.name) && HasMetadataOf(p, f, eval)
  {
    ReturnedPostsLoaded(dir, isDev, eval, p);
    var f :| f in dir && IsArticle(f.name) && LoadPost(f, eval) == Ok(p);
    LoadedHasMetadata(f, eval);
  }

  /**
   * Each returned post's `slug` is the name of a `.mdx` file of the directory
   * without its `.mdx`, even when the file's metadata sets a `slug` of its own.
   */
  lemma SlugsAreFileNames(dir: seq<File>, isDev: bool, eval: Eval)
    requires GetAllPosts(dir, isDev, eval).Ok?
    ensures forall p :: p in GetAllPosts(dir, isDev, eval).value ==>
      "slug" in p.fields &&
      exists f :: f in dir && IsArticle(f.name) && p.fields["slug"] == f.name[..|f.name| - 4] &&
        p.fields["slug"] + ".mdx" == f.name
  {
    forall p | p in GetAllPosts(dir, isDev, eval).value
      ensures "slug" in p.fields &&
        exists f :: f in dir && IsArticle(f.name) && p.fields["slug"] == f.name[..|f.name| - 4] &&
          p.fields["slug"] + ".mdx" == f.name
    {
      ReturnedPostsLoaded(dir, isDev, eval, p);
      var f :| f in dir && IsArticle(f.name) && LoadPost(f, eval) == Ok(p);
      LoadPostSlug(f, eval);
      SlugPattern.SlugOfArticle(f.name);
    }
  }

  /** Outside development mode every returned post is published. */
  lemma OnlyPublishedOutsideDev(dir: seq<File>, eval: Eval)
    requires GetAllPosts(dir, false, eval).Ok?
    ensures forall p :: p in GetAllPosts(dir, false, eval).value ==> p.published
  {
    forall p | p in GetAllPosts(dir, false, eval).value ensures p.published {
      ReturnedPostsLoaded(dir, false, eval, p);
    }
  }

  /**
   * The result is exactly the loaded posts that pass the visibility filter,
   * reordered: sorting adds and loses nothing. So there are never more posts
   * than `.mdx` files, and in development mode there is one per `.mdx` file.
   */
  lemma ResultIsPermutation(dir: seq<File>, isDev: bool, eval: Eval)
    requires GetAllPosts(dir, isDev, eval).Ok?
    ensures LoadArticles(dir, eval).Ok?
    ensures multiset(GetAllPosts(dir, isDev, eval).value) == multiset(Visible(LoadArticles(dir, eval).value, isDev))
    ensures |GetAllPosts(dir, isDev, eval).value| <= |Articles(dir)| <= |dir|
    ensures isDev ==> multiset(GetAllPosts(dir, isDev, eval).value) == multiset(LoadArticles(dir, eval).value)
    ensures isDev ==> |GetAllPosts(dir, isDev, eval).value| == |Articles(dir)|
  {
    var posts := LoadArticles(dir, eval).value;
    var r := GetAllPosts(dir, isDev, eval).value;
    var v := Visible(posts, isDev);
    assert multiset(r) == multiset(v);
    SameSize(r, v);
    if isDev {
      assert multiset(v) == multiset(posts);
      SameSize(v, posts);
    }
  }

  /** Sequences with the same elements, counted with multiplicity, have the same length. */
  lemma SameSize(a: seq<BlogPost>, b: seq<BlogPost>)
    requires multiset(a) == multiset(b)
    ensures |a| == |b|
  {
    assert |multiset(a)| == |a| && |multiset(b)| == |b|;
  }

  /** The result is newest first: each post is at least as recent as the one after it. */
  lemma ResultNewestFirst(dir: seq<File>, isDev: bool, eval: Eval)
    requires GetAllPosts(dir, isDev, eval).Ok?
    ensures NewestFirst(GetAllPosts(dir, isDev, eval).value)
    ensures var r := GetAllPosts(dir, isDev, eval).value;
      forall i :: 0 < i < |r| ==> r[i - 1].publishedAt >= r[i].publishedAt
  {
  }
}

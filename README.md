# getAllPosts, modelled in Dafny

This project models `getAllPosts` from `lib/posts.ts`, the post-listing routine of a blog front end. It:

- lists the `posts` directory and keeps the names ending in `.mdx`;
- reads each kept file and finds its `export const meta = {...}` block with the regular expression `/export\s+const\s+meta\s+=\s+(\{(\n|.)*?\n\})/`;
- throws for the first file without such a block, which aborts the whole call;
- evaluates the captured object literal;
- adds `slug`, the file name with `/\.mdx?$/` removed, after the metadata's own fields;
- drops unpublished posts unless `NODE_ENV` is `development`;
- sorts the rest by `publishedAt`, newest first.

The routine is a pure chain of expressions (`map`, `filter`, `sort` over a fresh array), so the model uses functions and lemmas only:

- `js_text.dfy` (module `JsText`): the JavaScript semantics the routine relies on. This covers the regular-expression classes `\s` and `.` (without the `s` flag) and `String.prototype.endsWith`.
- `meta_pattern.dfy` (module `MetaPattern`): `META.exec(contents)` and its capture group 1.
  - The scan (`HeaderFrom`, `LazyClose`, `MatchAt`, `Exec`) takes each `\s+` greedily, takes the body `(\n|.)*?` lazily and tries start positions from left to right.
  - The declarative predicates (`Spans`, `Pattern`) say which substrings the pattern matches under any split.
  - The lemmas show that the scan returns what a backtracking engine returns: the leftmost match, with the shortest body at that start.
- `slug_pattern.dfy` (module `SlugPattern`): `file.replace(/\.mdx?$/, '')`, which replaces the leftmost match only.
- `posts.dfy` (module `Posts`): the pipeline stages and the properties of `GetAllPosts`.
- `option.dfy` (module `Maybe`): the `Option` type.

One consequence of the pattern as written is modelled, not left out. `(\n|.)` cannot consume `\r`, so a metadata block with Windows line endings does not match. Such a file fails the whole call. `MetaPattern.LazyGroup` excludes `\r` from the captured text, and `MetaPattern.ExecNoneIffNoPattern` makes the failure exact.

Inputs that the source takes from its environment are explicit parameters here:

- The directory is `dir: seq<File>`, holding names and contents in listing order.
- `process.env.NODE_ENV === 'development'` is `isDev: bool`.
- `eval('(' + capture + ')')` is a parameter `eval: string -> Option<BlogPost>`. It returns `None` where `eval` would throw.
- A post's `publishedAt` is an integer timestamp, the value `new Date(...).getTime()` would give. Its `published` is the truthiness of the field. Every other field, including a `slug` that the metadata may set, is an entry of `fields`.

## Model

| member | source | states |
|---|---|---|
| JsText.IsLineTerminator | lib/posts.ts:5 | the four JavaScript line terminators `\n`, `\r`, U+2028 and U+2029; a definition, used by `IsSpace`, which includes them, and `IsDot`, which excludes them |
| JsText.IsSpace | lib/posts.ts:5 | the class `\s`: the white-space characters of JavaScript and the four line terminators; a definition, used by `SkipSpaces` and `SkipSpacesRun` |
| JsText.IsDot | lib/posts.ts:5 | the atom `.` without the `s` flag: any character except a line terminator; a definition, used by `MetaPattern.LazyGroup` |
| JsText.EndsWith | lib/posts.ts:7 | `endsWith`: the last characters of the string are the suffix; a definition, whose use `SlugPattern.SlugSpec` and `Posts.Articles` state |
| JsText.LiteralAt | lib/posts.ts:5 | the text holds a literal word at an index; a definition, used for the words of the metadata pattern by `HeaderFrom` and `Spans`, and for `.md` by `SlugPattern.SuffixAt` |
| JsText.SkipSpaces | lib/posts.ts:5 | what a greedy `\s*` consumes from an index ends inside the text, at or after that index; `SkipSpacesRun` states that it is the whole run |
| JsText.SkipSpacesRun | lib/posts.ts:5 | a greedy `\s+` stops exactly at the end of the white-space run: everything it consumes is `\s` and the next character is not |
| JsText.SkipSpacesUnique | lib/posts.ts:5 | a white-space run followed by a non-space character can only be split one way, so backtracking into `\s+` can never help `const`, `meta`, `=` or `{` match |
| MetaPattern.IsBodyChar | lib/posts.ts:5 | the atom `(\n` or `.)`: any character except `\r`, U+2028 and U+2029; a definition, used by `LazyClose`, `Pattern` and `LazyGroup` |
| MetaPattern.CloseAt | lib/posts.ts:5 | the closing `\n\}` of the pattern occurs at an index; a definition, used by `LazyClose`, `MatchAt`, `Pattern` and `LazyMatch` |
| MetaPattern.Spans | lib/posts.ts:5 | the words `export`, `const`, `meta`, `=` with any split of the `\s+` between them, then `{`; a definition, tied to the scan by `HeaderFromSpans` |
| MetaPattern.Pattern | lib/posts.ts:5 | the whole pattern matches a substring with its `{` and final `\n}` at given indices; a definition, tied to `exec` by `MatchAtFacts` and `ExecIsLeftmostLazy` |
| MetaPattern.HeaderFrom | lib/posts.ts:5 | a successful header scan ends on a `{` inside the text, at or after the start |
| MetaPattern.HeaderFromSpans | lib/posts.ts:5 | the greedy header scan finds the brace at `b` if and only if some split of the white space matches `export\s+const\s+meta\s+=\s+\{` with its brace at `b` |
| MetaPattern.LazyClose | lib/posts.ts:5 | the lazy body stops at the first `\n}` after the brace; everything before it is a body character; when it fails, no `\n}` can be reached through body characters |
| MetaPattern.MatchAt | lib/posts.ts:5-13 | a match found at a start has its `{`, then body characters, then a `\n}`, with no earlier `\n}` in between |
| MetaPattern.MatchAtFacts | lib/posts.ts:5-13 | the match found at a start satisfies the pattern; every other match at that start has the same brace and a body at least as long; no match is found exactly when the pattern cannot match there |
| MetaPattern.ExecFrom | lib/posts.ts:13 | `exec` returns a match that the pattern gives at its own start position, at or after where the scan began |
| MetaPattern.ExecFromSkips | lib/posts.ts:13 | `exec` passes over a start position only when the pattern does not match there |
| MetaPattern.ExecFromNext | lib/posts.ts:13 | a start that `exec` passes over has no match, and the scan result from it equals the result from the next start |
| MetaPattern.Exec | lib/posts.ts:13 | `META.exec(contents)` returns a match found at a real start position of the text |
| MetaPattern.ExecMatches | lib/posts.ts:5-13 | the match `exec` returns satisfies the pattern |
| MetaPattern.ExecLazy | lib/posts.ts:5-13 | at the start `exec` picks, every match has the same brace and a body at least as long (lazy `*?`) |
| MetaPattern.ExecLeftmost | lib/posts.ts:13 | the pattern does not match at any start before the one `exec` picks, nor anywhere when `exec` returns null |
| MetaPattern.ExecIsLeftmostLazy | lib/posts.ts:5-13 | `exec` returns the leftmost match, with the shortest body at that start |
| MetaPattern.ExecNoneIffNoPattern | lib/posts.ts:13-16 | `exec` returns null exactly when the pattern matches nowhere in the contents |
| MetaPattern.LazyGroup | lib/posts.ts:5 | the shape of capture group 1: `{`, characters that a newline or `.` accepts, and the first `\n}` after the brace; a definition, established by `GroupOne` |
| MetaPattern.LazyMatch | lib/posts.ts:5 | between the brace and the closing `\n}` there are only body characters and no earlier `\n}`; a definition, the precondition of `Group` and `GroupOne` |
| MetaPattern.GroupOne | lib/posts.ts:5 | the group `(\{...\n\})` starts with `{`, ends with the first `\n}` after it, and holds no `\r`, U+2028 or U+2029 |
| MetaPattern.Group | lib/posts.ts:13-15 | capture group 1 of a match is the text from the match's `{` through its closing `\n}`, and has that shape |
| MetaPattern.Capture | lib/posts.ts:13-15 | `match[1]` is absent exactly when `exec` finds no match; when present it is the text of the contents from the brace to the close of the match `exec` returns, and has the lazy-group shape |
| MetaPattern.CaptureIsLeftmostLazy | lib/posts.ts:5-15 | `match[1]` is absent exactly when the pattern matches nowhere; otherwise it is the text from the `{` to the closing `\n}` of a match with no match at any earlier start, and with no shorter body at its own start |
| MetaPattern.EngineMatch | lib/posts.ts:5-13 | the match a backtracking engine reports: the pattern matches, at no earlier start, and with no other brace or shorter body at its own start; a definition, used by `CaptureIsLeftmostLazy` |
| MetaPattern.NoneLeftOf | lib/posts.ts:13 | no match starts to the left of the one `exec` returns |
| MetaPattern.NoneShorter | lib/posts.ts:5-13 | at the start `exec` picks, no match has another brace or a shorter body |
| SlugPattern.SuffixAt | lib/posts.ts:21 | `/\.mdx?$/` tried at one index: `.md`, the greedy `x?`, then the end of the name; no contract of its own, `SuffixAtIff` states it |
| SlugPattern.ReplaceFrom | lib/posts.ts:21 | `replace` without the `g` flag, removing the leftmost match at or after an index; no contract of its own, `ReplaceFromIs` states it |
| SlugPattern.Slug | lib/posts.ts:21 | `file.replace(/\.mdx?$/, '')`; no contract of its own, `SlugSpec` and `SlugOfArticle` state it |
| SlugPattern.SuffixAtIff | lib/posts.ts:21 | `/\.mdx?$/` matches at an index exactly when `.mdx` or `.md` ends the name there, and the match always reaches the end of the name |
| SlugPattern.NotBothSuffixes | lib/posts.ts:21 | no name ends in both `.mdx` and `.md`, so the two alternatives of `x?` never compete at the end of a name |
| SlugPattern.ReplaceFromIs | lib/posts.ts:21 | `replace`, scanning from any index, removes the trailing `.mdx` (else `.md`) when it starts at or after that index, and otherwise leaves the name unchanged |
| SlugPattern.SlugSpec | lib/posts.ts:21 | the slug of any name is the name without a trailing `.mdx`, else without a trailing `.md`, else the name |
| SlugPattern.SlugOfArticle | lib/posts.ts:7-21 | for a `.mdx` name the slug is the name without `.mdx`, and appending `.mdx` to it gives the name back |
| Posts.IsArticle | lib/posts.ts:7 | the filter callback `file.endsWith('.mdx')`; a definition, used by `Articles` and every lemma about which files are read |
| Posts.Articles | lib/posts.ts:7 | the kept files are exactly the directory's files whose name ends in `.mdx`, and there are no more of them than files |
| Posts.Assemble | lib/posts.ts:19-22 | the post has every metadata field unchanged except `slug`, and `slug` is always the file-derived slug, whatever the metadata said |
| Posts.LoadPost | lib/posts.ts:10-23 | the `map` callback: the missing-metadata error, the evaluation error, or the assembled post; no contract of its own, `LoadPostOk`, `LoadPostError` and `LoadPostSlug` state it |
| Posts.MapAll | lib/posts.ts:9-23 | `map` with a throwing callback yields one result per element in order, or the error of the first element that throws; it succeeds exactly when no element throws |
| Posts.Visible | lib/posts.ts:24-26 | the filter keeps each post as often as it occurs when in development mode or published, and drops it otherwise |
| Posts.NewestFirst | lib/posts.ts:27-32 | the order the descending comparator sorts into: no post is older than one after it; a definition, used by `Insert`, `SortByDate`, `GetAllPosts` and `ResultNewestFirst` |
| Posts.Insert | lib/posts.ts:27-32 | inserting into a newest-first sequence keeps it newest first and adds exactly the one post |
| Posts.PrependNewest | lib/posts.ts:27-32 | a post at least as new as the head of a newest-first sequence can be put in front, and the result is still newest first |
| Posts.NoNewerThan | lib/posts.ts:27-32 | a permutation of some posts plus one more respects every upper bound on `publishedAt` that they all respect |
| Posts.SortByDate | lib/posts.ts:27-32 | the sorted result is newest first and a permutation of its input |
| Posts.LoadArticles | lib/posts.ts:7-23 | when loading succeeds there is one post per `.mdx` file, in listing order, each the one its file loads to |
| Posts.GetAllPosts | lib/posts.ts:4-35 | the call fails exactly when loading fails, with loading's error; otherwise it returns the visible loaded posts, newest first, each exactly as often as it was loaded |
| Posts.ArticlesAppend | lib/posts.ts:7 | selecting `.mdx` names distributes over concatenated listings |
| Posts.ArticlesInListingOrder | lib/posts.ts:7 | the filter keeps listing order: one more listing entry appends that entry to the kept files exactly when its name ends in `.mdx` |
| Posts.OtherFilesIgnored | lib/posts.ts:7 | adding a file whose name does not end in `.mdx`, anywhere and with any contents, does not change the result, not even whether the call fails |
| Posts.SameArticlesSameResult | lib/posts.ts:7-35 | the result depends on the directory only through its `.mdx` files |
| Posts.LoadPostOk | lib/posts.ts:13-22 | a file loads exactly when `exec` finds its metadata block and the captured literal, in parentheses, evaluates; the loaded post is then that evaluated record with the file's slug added |
| Posts.LoadPostSlug | lib/posts.ts:19-22 | a post loaded from a file carries that file's slug |
| Posts.LoadPostError | lib/posts.ts:13-17 | a file that fails to load gives the missing-metadata error, which names the file, exactly when `exec` finds nothing, and the evaluation error exactly when a block was found but its literal does not evaluate |
| Posts.LoadArticlesOk | lib/posts.ts:9-23 | loading succeeds exactly when every `.mdx` file of the directory loads |
| Posts.AllOrNothing | lib/posts.ts:9-26 | the call succeeds exactly when every `.mdx` file loads, so one bad file fails the call even if it is unpublished |
| Posts.MissingMetaFails | lib/posts.ts:13-16 | a `.mdx` file without a metadata block fails the call in either mode |
| Posts.MalformedMetaFails | lib/posts.ts:13-17 | a `.mdx` file whose metadata block does not evaluate fails the call in either mode |
| Posts.FailureNamesFirstBadFile | lib/posts.ts:9-17 | a failed call reports the error of the first `.mdx` file, in listing order, that fails to load; a missing-metadata error names that file |
| Posts.ReturnedPostsLoaded | lib/posts.ts:9-32 | every returned post was loaded from a `.mdx` file of the directory and passed the visibility filter |
| Posts.HasMetadataOf | lib/posts.ts:13-22 | a post has a file's evaluated metadata: the same `publishedAt` and `published`, and every metadata field except `slug`; a definition, used by the two lemmas below |
| Posts.LoadedHasMetadata | lib/posts.ts:13-22 | a post loaded from a file has that file's evaluated metadata |
| Posts.ReturnedPostsCarryMetadata | lib/posts.ts:9-32 | every returned post has the evaluated metadata of some `.mdx` file of the directory, so the filter and the sort act on the files' own `published` and `publishedAt` |
| Posts.SlugsAreFileNames | lib/posts.ts:7-22 | every returned post's `slug` is the name of a `.mdx` file of the directory without `.mdx` |
| Posts.OnlyPublishedOutsideDev | lib/posts.ts:24-26 | outside development mode every returned post is published |
| Posts.ResultIsPermutation | lib/posts.ts:9-32 | the result is a permutation of the visible loaded posts, no longer than the number of `.mdx` files; in development mode it has exactly one post per `.mdx` file |
| Posts.ResultNewestFirst | lib/posts.ts:27-32 | the result is newest first, for every pair and in particular for every adjacent pair |

## Left out

- The file system: `fs.readdirSync`, `fs.readFileSync`, `path.join` and `process.cwd()`. The directory is an input sequence of names and contents, so a missing or unreadable directory is not modelled.
- Errors from reading a single `.mdx` entry are not modelled. `fs.readFileSync` throws for a subdirectory named like a post, for a file without read permission, and for a file removed between the listing and the read, and that aborts the whole call. The model can always read every listed file, so `Posts.AllOrNothing` holds only when every read succeeds.
- The error message names the file by its full path. The model's `MissingMeta` error carries the directory entry's name, because `path.join` is not modelled.
- The exception that `eval` throws for a literal that does not evaluate. The callback does not catch it, so it aborts the call as it is. It names no file, and the model's `EvalFailed` error likewise carries no file. The model does not keep the exception's own type or message.
- `console.log` of the file count, which is diagnostic output only.
- `eval` of the captured literal. It is arbitrary JavaScript evaluation, so the model takes it as a parameter. The parameter returns a record, or None where evaluation throws.
- The scope of that `eval`. It is a direct `eval`, so a literal could read the callback's variables (`file`, `name`, `contents`, `fs`, `DIR`) and, for example, count the directory's other files. The model's `eval` depends only on the literal's text, so `Posts.OtherFilesIgnored`, `Posts.SameArticlesSameResult` and `Posts.LoadPostOk` hold for metadata literals that are plain data.
- `new Date(...).getTime()`. Date parsing and the `NaN` of a missing or invalid `publishedAt` are left out, and `publishedAt` is an integer timestamp.
- The truthiness of a non-boolean `published` value. `published` is a boolean.
- `process.env.NODE_ENV` as ambient state. It is the `isDev` parameter.
- Tie order. `Array.prototype.sort` has been stable since ECMAScript 2019, so posts with equal timestamps keep the filter's order, which is listing order. The model's insertion sort promises only newest-first order and the same posts, and says nothing about ties.
- The UTF-16 code units of JavaScript strings. The model works on characters, which makes no difference for the characters the patterns look at.
- The `typeof match[1] !== 'string'` test. Group 1 is outside every quantifier, so it is always a string when `exec` matches. The model therefore fails only when there is no match.
- `components/styled/layout.tsx` is not part of this model. It is a declarative style definition with no behaviour.

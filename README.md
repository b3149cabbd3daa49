# Post index and queries of a file-backed Markdown blog

The blog server in `main.js` reads its `posts` directory once at start-up.
It keeps one record per Markdown file: the file's base name plus the
fields of its YAML front matter. Two routes then scan that list. One is
`GET /post/:postname`, a first-match lookup by name that answers 404 when
nothing matches. The other is `GET /search?phrase=…`, which keeps the posts
whose title or description contains the normalised phrase.

This project models that core in Dafny:

- `text.dfy` (module `Text`): the JavaScript string operations the core
  uses. These are `split` with `shift`/`pop`, `trim` with ECMAScript's
  whitespace set, `indexOf`/`includes`, and `replace` with a string
  pattern, which replaces only the first occurrence.
- `post_index.dfy` (module `PostIndex`): the start-up loop. `BuildIndex`
  is the loop itself. `Index` is the function it is proved against. The
  lemmas cover which entries are kept, in what order, and what each record
  holds.
- `queries.dfy` (module `Queries`): the name lookup (`FindIndex`,
  `ShowPost`) and the search. `Search` is the handler's counted loop and
  `Matching` is its specification. The module also proves the
  term-normalisation lemmas and a small two-post example.

A post is a JavaScript object whose fields come from front matter. It is
modelled as a `map` from field name to string, so `Object.assign` is map
override. The directory listing is an input sequence. The front-matter
parser's result for each file is the input function `frontMatter`.

The model follows `main.js`, including behaviour that is narrower than the
route names suggest:

- A post's name is the text before the *first* dot. `a.b.md` is indexed as
  `a`, not `a.b`.
- An entry is kept when the text after its *last* dot is `md`. So a file
  named just `md` is kept (as post `md`), and so is `.md` (as post `""`).
  `notes.md.bak` is not kept (`IsMarkdownIff`).
- Front matter is laid over `{name}`. A front-matter `name` field therefore
  replaces the file-derived name (`MakePostName`).
- Search collapses only the first double space of the trimmed phrase
  (`LaterDoubleSpacesRemain`). Matching is case-sensitive, and the empty
  term matches every post (`EmptyTermMatchesAll`).

## Model

| member | source | states |
|---|---|---|
| `Text.TrimStart` | main.js:104 | the result is the suffix of the input left after its leading whitespace; everything cut is whitespace and the result does not start with whitespace |
| `Text.TrimEnd` | main.js:104 | the result is the prefix left after the trailing whitespace; everything cut is whitespace and the result does not end with whitespace |
| `Text.Trim` | main.js:104 | `trim()` leaves no whitespace at either end |
| `Text.TrimIsSlice` | main.js:104 | `trim()` returns a contiguous slice of its input, and only whitespace lies outside that slice |
| `Text.TrimLeavesSolid` | main.js:104 | a string that neither starts nor ends with whitespace is unchanged by `trim()` |
| `Text.TrimIdempotent` | main.js:104 | trimming twice is trimming once |
| `Text.Split` | main.js:45-47 | `split('.')` gives at least one part, and no part contains a dot |
| `Text.JoinSplit` | main.js:45-47 | joining the parts of `split` with the separator rebuilds the string (round trip) |
| `Text.SplitJoin` | main.js:45-47 | splitting the join of separator-free parts gives the parts back (inverse round trip) |
| `Text.FirstSegmentIsPrefix` | main.js:47 | `split('.').shift()` is the longest dot-free prefix: a prefix, without a dot, followed by a dot unless it is the whole name |
| `Text.LastSegmentIsSuffix` | main.js:45 | `split('.').pop()` is the longest dot-free suffix: a suffix, without a dot, preceded by a dot unless it is the whole name |
| `Text.IndexOf` | main.js:111-112 | `indexOf` returns -1 or the position of an occurrence, and no occurrence starts before it (none at all when -1) |
| `Text.IncludesIff` | main.js:111-112 | `includes` holds exactly when the term occurs somewhere; every string includes the empty term |
| `PostIndex.IsMarkdownIff` | main.js:45-46 | an entry passes the extension test exactly when it is `md` or ends in `.md` |
| `PostIndex.BaseName` | main.js:47 | the base name is the file name up to its first dot: a prefix, with no dot, followed by a dot unless it is the whole name |
| `PostIndex.BaseRecord` | main.js:47 | each post starts as a record with the single field `name`, holding the file's base name, which has no dot |
| `PostIndex.Overlay` | main.js:49 | `Object.assign`: the merged fields are the union; every front-matter field wins; base fields not in the front matter keep their values |
| `PostIndex.MakePostName` | main.js:47-49 | a cached record always has a `name`; it is the front matter's `name` when present, else the dot-free base name |
| `PostIndex.BuildIndex` | main.js:42-52 | the start-up loop pushes exactly the records of `Index`, the Markdown entries' records in listing order |
| `PostIndex.IndexAppend` | main.js:44-52 | the index of a concatenated listing is the concatenation of the indexes |
| `PostIndex.MarkdownPositionsSound` | main.js:43-52 | the k-th record is built from the entry at the k-th Markdown place of the listing |
| `PostIndex.MarkdownPositionsIncreasing` | main.js:43-52 | the Markdown places are strictly increasing, i.e. records follow listing order |
| `PostIndex.MarkdownPositionsComplete` | main.js:43-52 | every Markdown entry of the listing contributes a record |
| `PostIndex.IndexPositions` | main.js:43-52 | exactly one record per Markdown entry, in listing order, each built from its entry's base name and front matter; other entries are skipped |
| `PostIndex.IndexWithoutMarkdown` | main.js:44-46 | a listing with no Markdown entry gives an empty index |
| `PostIndex.IndexOfThree` | main.js:44-52 | a Markdown entry, a skipped entry and a Markdown entry index as the two records in order |
| `Queries.FindIndex` | main.js:87 | `findIndex` returns -1 or the position of a post with that name, and no earlier post has the name (none at all when -1) |
| `Queries.ShowPost` | main.js:86-89 | the route answers 404 exactly when no post has the requested name; otherwise it selects a post with that name that no earlier post shares |
| `Queries.IndexedPostIsFound` | main.js:87-89 | a Markdown file whose front matter sets no `name` is found under its base name |
| `Queries.NormaliseTermShape` | main.js:104 | the term is the trimmed phrase if that has no double space; otherwise it is the trimmed phrase with its leftmost double space made single, one character shorter |
| `Queries.LaterDoubleSpacesRemain` | main.js:104 | every double space of the trimmed phrase after its first one, even one overlapping it in a run of three or more spaces, survives normalisation one place to the left, so the term can still contain a double space |
| `Queries.CollapseKeepsLater` | main.js:104 | `replace('  ', ' ')` moves every double space after the leftmost one, overlapping ones included, one place to the left and leaves it a double space |
| `Queries.BlankPhraseGivesEmptyTerm` | main.js:104 | the normalised term is empty exactly when the phrase is empty or whitespace only |
| `Queries.NormalisedTermIsTrimmed` | main.js:104 | the normalised term has no whitespace at either end |
| `Queries.Search` | main.js:103-115 | the handler's loop yields the normalised term and exactly `Matching`, the matching posts in list order |
| `Queries.MatchPositionsSound` | main.js:108-115 | the k-th result is the post at the k-th matching place, and that post matches |
| `Queries.MatchPositionsIncreasing` | main.js:108-115 | matching places are strictly increasing and no more numerous than the posts |
| `Queries.MatchPositionsComplete` | main.js:108-115 | every matching post's place is among the result places |
| `Queries.MatchingPositions` | main.js:108-115 | the results are a subsequence of the posts in their original order, no longer than the list, holding every matching post and only those |
| `Queries.MatchingMembership` | main.js:111-114 | a post is a result exactly when it is in the list and the term occurs in its title or its description |
| `Queries.EmptyTermMatchesAll` | main.js:111-114 | the empty term, which a blank phrase gives, returns every post |
| `Queries.NoMatchGivesEmpty` | main.js:108-115 | a term that matches no post gives an empty result, not an error |
| `Queries.MatchingIdempotent` | main.js:108-115 | searching the results again for the same term gives the same results |
| `Queries.IndexIsSearchable` | main.js:111-112 | if every Markdown file's front matter has `title` and `description`, every cached post can be searched without fault |
| `Queries.SampleKinds` | main.js:45-46 | in the sample listing `a.md`, `notes.txt`, `b.md`, the two `.md` entries are Markdown and the text file is not |
| `Queries.SampleBaseNames` | main.js:47 | `a.md` and `b.md` are named `a` and `b` |
| `Queries.SampleIndex` | main.js:42-52 | the sample listing indexes `a` then `b` |
| `Queries.SampleLookup` | main.js:86-89 | in the sample blog `GET /post/a` finds `a` and `GET /post/missing` is not found |

## Left out

- Express set-up, middleware (`helmet`, static files), the catch-all 404 handler and `app.listen` (main.js:20-39, 126-135): HTTP plumbing with no logic of the core.
- Rendering with Nunjucks for the home page, RSS feed, sitemap, post and search pages (main.js:54-82, 92-97, 117-123): the templates are not part of this model. `ShowPost` stops at the choice between a post and the 404 page. `Search` stops at the term and the results handed to the template.
- File I/O: `fs.readdirSync` becomes the input listing. `fs.readFileSync` and the per-request re-read of the selected post's body (main.js:48, 90) are not modelled. The re-read opens `<name>.md`, so a post indexed from `a.b.md`, or renamed by its front matter, is re-read from a different file. That path is outside this model.
- The front-matter parser (`markdown-yaml-metadata-parser`) and Markdown rendering (`marked`, `marked-images`) are foreign libraries. The parser's output per file is the input function `frontMatter`, and rendering is not modelled.
- Front-matter values are modelled as strings. YAML numbers, dates, lists and nested maps are not. A non-string `title` or `description` would make `includes` fault or behave differently.
- `Search`: the phrase is a string parameter. A request without `phrase`, or with it repeated (an array), faults in the source at `.trim()`. Those cases are not modelled.
- `Search` requires every post to have `title` and `description`. The source faults otherwise (main.js:111-112), so this is a precondition, not an error result. `IndexIsSearchable` states when the index meets it.
- JavaScript object details are not modelled: field order, inherited prototype fields, and the special `__proto__` key in front matter. A post is a plain map.
- Strings are sequences of code points. JavaScript's UTF-16 code units, and surrogate pairs in `trim`/`includes`, are not distinguished. The whitespace set is ECMAScript's fixed list of WhiteSpace and LineTerminator code points.
- The search loop's counter `i` is an undeclared (implicitly global) variable in the source. With one request at a time this has no effect, so it is a local here.
- Category listings and configuration through `dotenv`/`process.env` (main.js:18, 57-58, 132) are not part of `main.js`'s core logic, and category pages do not appear in this file.

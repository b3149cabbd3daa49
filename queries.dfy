/**
 * The two queries the blog's routes run over the cached post list:
 * the lookup by name of `GET /post/:postname` (main.js:85-89) and the
 * title/description search of `GET /search` (main.js:101-115).
 */
module Queries {
  import opened Text
  import opened PostIndex

  const TITLE: String := "title"
  const DESCRIPTION: String := "description"

  /* ---------------------------------------------------------------------- */
  /* Lookup by name                                                         */
  /* ---------------------------------------------------------------------- */

  /** `post.name === postname`; a post without a `name` field matches no
      name. */
  predicate HasName(post: Post, name: String) {
    NAME in post && post[NAME] == name
  }

  /** `posts.findIndex(post => post.name === name)`: the position of the
      first post with that name, or -1 when no post has it. */
  function FindIndex(posts: seq<Post>, name: String): (r: int)
    ensures -1 <= r < |posts|
    ensures r >= 0 ==> HasName(posts[r], name)
    ensures forall k :: 0 <= k < |posts| && (r == -1 || k < r) ==> !HasName(posts[k], name)
  {
    if posts == [] then -1
    else if HasName(posts[0], name) then 0
    else
      var k := FindIndex(posts[1..], name);
      if k == -1 then -1 else k + 1
  }

  /** What the post route answers before any file is read: the selected
      post, or the not-found page with status 404. */
  datatype PostPage = Found(post: Post) | NotFound

  /** `GET /post/:postname` up to the choice between rendering a post and
      the 404 page. */
  function ShowPost(posts: seq<Post>, postname: String): (page: PostPage)
    ensures page.NotFound? <==> forall k :: 0 <= k < |posts| ==> !HasName(posts[k], postname)
    ensures page.Found? ==> exists k :: (
      && 0 <= k < |posts| && posts[k] == page.post
      && HasName(page.post, postname)
      && forall m :: 0 <= m < k ==> !HasName(posts[m], postname))
  {
    var postIndex := FindIndex(posts, postname);
    if postIndex >= 0 then Found(posts[postIndex]) else NotFound
  }

  /** A post cached from `<base>.<…>.md` whose front matter does not set
      `name` is served under its base name: the route does not answer 404
      for it, and the post it serves carries that name. */
  lemma IndexedPostIsFound(files: seq<String>, frontMatter: String -> Metadata, j: nat)
    requires j < |files| && IsMarkdown(files[j]) && NAME !in frontMatter(files[j])
    ensures ShowPost(Index(files, frontMatter), BaseName(files[j])).Found?
    ensures HasName(ShowPost(Index(files, frontMatter), BaseName(files[j])).post, BaseName(files[j]))
  {
    var positions := IndexPositions(files, frontMatter);
    var k :| 0 <= k < |positions| && positions[k] == j;
    var index := Index(files, frontMatter);
    MakePostName(files[j], frontMatter(files[j]));
    assert HasName(index[k], BaseName(files[j]));
  }

  /* ---------------------------------------------------------------------- */
  /* Search                                                                 */
  /* ---------------------------------------------------------------------- */

  /** `req.query.phrase.trim().replace('  ', ' ')`: the phrase without
      surrounding whitespace, with its first double space made single. */
  function NormaliseTerm(phrase: String): String
  {
    ReplaceFirst(Trim(phrase), "  ", " ")
  }

  /** The term is the trimmed phrase when that holds no double space, and
      otherwise the trimmed phrase with its leftmost double space replaced
      by one space, one character shorter. */
  lemma NormaliseTermShape(phrase: String)
    ensures var t := Trim(phrase);
      (forall i :: !OccursAt(t, "  ", i)) ==> NormaliseTerm(phrase) == t
    ensures var t := Trim(phrase);
      forall i :: OccursAt(t, "  ", i) && (forall m :: 0 <= m < i ==> !OccursAt(t, "  ", m)) ==>
        && NormaliseTerm(phrase) == t[..i] + " " + t[i + 2..]
        && |NormaliseTerm(phrase)| == |t| - 1
  {
    var t := Trim(phrase);
    var r := IndexOf(t, "  ");
    forall i | OccursAt(t, "  ", i) && (forall m :: 0 <= m < i ==> !OccursAt(t, "  ", m))
      ensures NormaliseTerm(phrase) == t[..i] + " " + t[i + 2..]
    {
      assert r != -1;
      assert r == i;
    }
  }

  /** Only the first double space is collapsed: any later one, overlapping
      runs of three or more spaces included, is still there, one place to
      the left. */
  lemma LaterDoubleSpacesRemain(phrase: String, i: nat, j: nat)
    requires i < j
    requires OccursAt(Trim(phrase), "  ", i) && OccursAt(Trim(phrase), "  ", j)
    ensures OccursAt(NormaliseTerm(phrase), "  ", j - 1)
    ensures Includes(NormaliseTerm(phrase), "  ")
  {
    var term := NormaliseTerm(phrase);
    CollapseKeepsLater(Trim(phrase), i, j);
    IncludesIff(term, "  ");
  }

  /** Collapsing the leftmost double space of `t` moves any later double
      space one place to the left. */
  lemma CollapseKeepsLater(t: String, i: nat, j: nat)
    requires i < j && OccursAt(t, "  ", i) && OccursAt(t, "  ", j)
    ensures OccursAt(ReplaceFirst(t, "  ", " "), "  ", j - 1)
  {
    var r := IndexOf(t, "  ");
    assert r != -1 && r <= i;
    var term := t[..r] + " " + t[r + 2..];
    assert ReplaceFirst(t, "  ", " ") == term;
    assert t[j] == ' ' && t[j + 1] == ' ' by {
      assert t[j..j + 2] == "  ";
      assert t[j..j + 2][0] == t[j] && t[j..j + 2][1] == t[j + 1];
    }
    assert |term| == |t| - 1 && j + 1 <= |term|;
    assert term[j - 1] == ' ' by {
      if r + 2 <= j { assert term[j - 1] == t[j]; } else { assert j - 1 == r; }
    }
    assert term[j] == t[j + 1];
    assert term[j - 1..j + 1] == "  ";
  }

  /** The term is empty exactly when the phrase is blank: made of
      whitespace only, or empty. */
  lemma BlankPhraseGivesEmptyTerm(phrase: String)
    ensures NormaliseTerm(phrase) == [] <==> forall k :: 0 <= k < |phrase| ==> IsWhitespace(phrase[k])
  {
    var t := Trim(phrase);
    assert NormaliseTerm(phrase) == [] <==> t == [] by {
      var r := IndexOf(t, "  ");
      if r != -1 {
        assert |NormaliseTerm(phrase)| == |t| - 1 && |t| >= 2;
      }
    }
    var i, j := TrimIsSlice(phrase);
    if t != [] {
      assert !IsWhitespace(phrase[i]) by { assert t[0] == phrase[i]; }
    }
  }

  /** The term needs no further trimming: collapsing a double space never
      exposes whitespace at either end. */
  lemma NormalisedTermIsTrimmed(phrase: String)
    ensures Trim(NormaliseTerm(phrase)) == NormaliseTerm(phrase)
  {
    var t := Trim(phrase);
    var r := IndexOf(t, "  ");
    if r == -1 {
      assert NormaliseTerm(phrase) == t;
      TrimIdempotent(phrase);
    } else {
      var term := t[..r] + " " + t[r + 2..];
      assert NormaliseTerm(phrase) == term;
      assert 0 < r && r + 2 < |t| by {
        assert t[r..r + 2] == "  ";
        assert t[r] == ' ' && t[r + 1] == ' ';
        assert IsWhitespace(' ');
      }
      assert term[0] == t[0] && term[|term| - 1] == t[|t| - 1];
      TrimLeavesSolid(term);
    }
  }

  /** The search reads `title` and `description` of every post; a post
      without either makes the route fault. */
  predicate Searchable(post: Post) {
    TITLE in post && DESCRIPTION in post
  }

  /** The term is part of the post's title or of its description, case
      and all. */
  predicate Matches(post: Post, term: String)
    requires Searchable(post)
  {
    Includes(post[TITLE], term) || Includes(post[DESCRIPTION], term)
  }

  /** The matching posts, in the order of the post list. */
  function Matching(posts: seq<Post>, term: String): seq<Post>
    requires forall k :: 0 <= k < |posts| ==> Searchable(posts[k])
  {
    if posts == [] then []
    else
      var post := posts[|posts| - 1];
      Matching(posts[..|posts| - 1], term) + (if Matches(post, term) then [post] else [])
  }

  /** `GET /search?phrase=…` up to rendering: the normalised term and the
      posts that match it, gathered by the route's counted loop. */
  method Search(posts: seq<Post>, phrase: String) returns (term: String, results: seq<Post>)
    requires forall k :: 0 <= k < |posts| ==> Searchable(posts[k])
    ensures term == NormaliseTerm(phrase)
    ensures results == Matching(posts, term)
  {
    term := ReplaceFirst(Trim(phrase), "  ", " ");
    results := [];
    for i := 0 to |posts|
      invariant results == Matching(posts[..i], term)
    {
      var post := posts[i];
      assert posts[..i + 1][..i] == posts[..i];
      var titleMatch := Includes(post[TITLE], term);
      var descMatch := Includes(post[DESCRIPTION], term);
      if titleMatch || descMatch {
        results := results + [post];
      }
    }
    assert posts[..|posts|] == posts;
  }

  /** The places in `posts` of the posts that match, in increasing order. */
  ghost function MatchPositions(posts: seq<Post>, term: String): seq<nat>
    requires forall k :: 0 <= k < |posts| ==> Searchable(posts[k])
  {
    if posts == [] then []
    else
      var n := |posts| - 1;
      MatchPositions(posts[..n], term) + (if Matches(posts[n], term) then [n] else [])
  }

  /** There is one result per matching place, and the k-th result is the
      post at the k-th matching place. */
  lemma {:induction false} MatchPositionsSound(posts: seq<Post>, term: String)
    requires forall k :: 0 <= k < |posts| ==> Searchable(posts[k])
    ensures |MatchPositions(posts, term)| == |Matching(posts, term)|
    ensures forall k :: 0 <= k < |MatchPositions(posts, term)| ==>
      && MatchPositions(posts, term)[k] < |posts|
      && Matching(posts, term)[k] == posts[MatchPositions(posts, term)[k]]
      && Matches(posts[MatchPositions(posts, term)[k]], term)
  {
    if posts != [] {
      var n := |posts| - 1;
      var front := posts[..n];
      MatchPositionsSound(front, term);
      var positions, earlier := MatchPositions(posts, term), MatchPositions(front, term);
      var results, frontResults := Matching(posts, term), Matching(front, term);
      forall k | 0 <= k < |positions|
        ensures positions[k] < |posts| && results[k] == posts[positions[k]]
        ensures Matches(posts[positions[k]], term)
      {
        if k < |earlier| {
          assert positions[k] == earlier[k] && results[k] == frontResults[k];
          assert posts[earlier[k]] == front[earlier[k]];
        }
      }
    }
  }

  /** The matching places are listed in increasing order, so the results
      keep the order of the post list. */
  lemma {:induction false} MatchPositionsIncreasing(posts: seq<Post>, term: String)
    requires forall k :: 0 <= k < |posts| ==> Searchable(posts[k])
    ensures |MatchPositions(posts, term)| <= |posts|
    ensures forall k :: 0 <= k < |MatchPositions(posts, term)| ==> MatchPositions(posts, term)[k] < |posts|
    ensures forall k, m :: 0 <= k < m < |MatchPositions(posts, term)| ==>
      MatchPositions(posts, term)[k] < MatchPositions(posts, term)[m]
  {
    if posts != [] {
      var n := |posts| - 1;
      MatchPositionsIncreasing(posts[..n], term);
    }
  }

  /** Every matching place is listed. */
  lemma {:induction false} MatchPositionsComplete(posts: seq<Post>, term: String)
    requires forall k :: 0 <= k < |posts| ==> Searchable(posts[k])
    ensures forall j :: 0 <= j < |posts| && Matches(posts[j], term) ==> j in MatchPositions(posts, term)
  {
    if posts != [] {
      var n := |posts| - 1;
      var front := posts[..n];
      MatchPositionsComplete(front, term);
      var positions, earlier := MatchPositions(posts, term), MatchPositions(front, term);
      forall j | 0 <= j < |posts| && Matches(posts[j], term)
        ensures j in positions
      {
        if j < n {
          assert front[j] == posts[j];
          assert j in earlier;
          var k :| 0 <= k < |earlier| && earlier[k] == j;
          assert positions[k] == j;
        } else {
          assert positions == earlier + [n];
        }
      }
    }
  }

  /** The results are the matching posts and nothing else, each once per
      place in the list and in list order: `positions` gives, in increasing
      order, where each result stands in `posts`, and every matching place
      is among them. */
  lemma MatchingPositions(posts: seq<Post>, term: String) returns (positions: seq<nat>)
    requires forall k :: 0 <= k < |posts| ==> Searchable(posts[k])
    ensures |positions| == |Matching(posts, term)| <= |posts|
    ensures forall k :: 0 <= k < |positions| ==>
      && positions[k] < |posts|
      && Matching(posts, term)[k] == posts[positions[k]]
      && Matches(posts[positions[k]], term)
    ensures forall k, m :: 0 <= k < m < |positions| ==> positions[k] < positions[m]
    ensures forall j :: 0 <= j < |posts| && Matches(posts[j], term) ==> j in positions
  {
    positions := MatchPositions(posts, term);
    MatchPositionsSound(posts, term);
    MatchPositionsIncreasing(posts, term);
    MatchPositionsComplete(posts, term);
  }

  /** A post is among the results exactly when it is in the list and
      matches the term. */
  lemma {:induction false} MatchingMembership(posts: seq<Post>, term: String, post: Post)
    requires forall k :: 0 <= k < |posts| ==> Searchable(posts[k])
    ensures post in Matching(posts, term) <==> post in posts && Searchable(post) && Matches(post, term)
  {
    if posts != [] {
      MatchingMembership(posts[..|posts| - 1], term, post);
      assert posts == posts[..|posts| - 1] + [posts[|posts| - 1]];
    }
  }

  /** The empty term, which a blank phrase gives, matches every post. */
  lemma {:induction false} EmptyTermMatchesAll(posts: seq<Post>)
    requires forall k :: 0 <= k < |posts| ==> Searchable(posts[k])
    ensures Matching(posts, []) == posts
  {
    if posts != [] {
      EmptyTermMatchesAll(posts[..|posts| - 1]);
      IncludesIff(posts[|posts| - 1][TITLE], []);
    }
  }

  /** A term that no post matches gives an empty result, not a fault. */
  lemma {:induction false} NoMatchGivesEmpty(posts: seq<Post>, term: String)
    requires forall k :: 0 <= k < |posts| ==> Searchable(posts[k])
    requires forall k :: 0 <= k < |posts| ==> !Matches(posts[k], term)
    ensures Matching(posts, term) == []
  {
    if posts != [] {
      NoMatchGivesEmpty(posts[..|posts| - 1], term);
    }
  }

  /** Searching the results again for the same term gives them back. */
  lemma {:induction false} MatchingIdempotent(posts: seq<Post>, term: String)
    requires forall k :: 0 <= k < |posts| ==> Searchable(posts[k])
    ensures forall k :: 0 <= k < |Matching(posts, term)| ==> Searchable(Matching(posts, term)[k])
    ensures Matching(Matching(posts, term), term) == Matching(posts, term)
  {
    if posts != [] {
      var n := |posts| - 1;
      MatchingIdempotent(posts[..n], term);
      var front := Matching(posts[..n], term);
      if Matches(posts[n], term) {
        var results := front + [posts[n]];
        assert results[..|results| - 1] == front;
        assert results[|results| - 1] == posts[n];
        assert Matching(posts, term) == results;
        assert Matching(results, term) == Matching(front, term) + [posts[n]];
      } else {
        assert Matching(posts, term) == front;
      }
    }
  }

  /** Posts cached from front matter that always sets `title` and
      `description` can all be searched. */
  lemma IndexIsSearchable(files: seq<String>, frontMatter: String -> Metadata)
    requires forall j :: 0 <= j < |files| && IsMarkdown(files[j]) ==>
      TITLE in frontMatter(files[j]) && DESCRIPTION in frontMatter(files[j])
    ensures forall k :: 0 <= k < |Index(files, frontMatter)| ==> Searchable(Index(files, frontMatter)[k])
  {
    var positions := IndexPositions(files, frontMatter);
    forall k | 0 <= k < |Index(files, frontMatter)|
      ensures Searchable(Index(files, frontMatter)[k])
    {
      var j := positions[k];
      MakePostName(files[j], frontMatter(files[j]));
    }
  }

  /* ---------------------------------------------------------------------- */
  /* Worked examples                                                        */
  /* ---------------------------------------------------------------------- */

  /** The listing of a two-post blog: `a.md`, a text file, `b.md`. */
  const SAMPLE_FILES: seq<String> := ["a.md", "notes.txt", "b.md"]

  /** The front matter of the two-post blog: `a` is titled "Hello", `b`
      "World". */
  function SampleFrontMatter(file: String): Metadata {
    if file == "a.md" then map[TITLE := "Hello", DESCRIPTION := "first"]
    else map[TITLE := "World", DESCRIPTION := "second"]
  }

  /** The two records of the sample blog. */
  function SamplePosts(): seq<Post> {
    [MakePost("a.md", SampleFrontMatter("a.md")), MakePost("b.md", SampleFrontMatter("b.md"))]
  }

  /** Which entries of the two-post blog are Markdown. */
  lemma SampleKinds()
    ensures IsMarkdown("a.md") && !IsMarkdown("notes.txt") && IsMarkdown("b.md")
  {
    var a, txt, b := "a.md", "notes.txt", "b.md";
    IsMarkdownIff(a);
    assert a[1..] == ".md";
    IsMarkdownIff(txt);
    assert txt[6..] != ".md" by {
      assert txt[6..][0] == 't';
    }
    IsMarkdownIff(b);
    assert b[1..] == ".md";
  }

  /** The base names of the two posts. */
  lemma SampleBaseNames()
    ensures BaseName("a.md") == "a" && BaseName("b.md") == "b"
  {
    var a, b := "a.md", "b.md";
    var fa, fb := BaseName(a), BaseName(b);
    assert a[0] != '.' && a[1] == '.';
    assert b[0] != '.' && b[1] == '.';
    assert |fa| == 1 && |fb| == 1;
  }

  /** The two-post blog indexes `a` and then `b`, skipping the text file. */
  lemma SampleIndex()
    ensures Index(SAMPLE_FILES, SampleFrontMatter) == SamplePosts()
  {
    SampleKinds();
    IndexOfThree("a.md", "notes.txt", "b.md", SampleFrontMatter);
  }

  /** In the two-post blog `GET /post/a` finds `a` and `GET /post/missing`
      is not found. */
  lemma SampleLookup()
    ensures ShowPost(SamplePosts(), "a") == Found(SamplePosts()[0])
    ensures ShowPost(SamplePosts(), "missing") == NotFound
  {
    var posts := SamplePosts();
    assert HasName(posts[0], "a") by {
      SampleBaseNames();
      MakePostName("a.md", SampleFrontMatter("a.md"));
    }
    assert !HasName(posts[0], "missing") && !HasName(posts[1], "missing") by {
      SampleBaseNames();
      MakePostName("a.md", SampleFrontMatter("a.md"));
      MakePostName("b.md", SampleFrontMatter("b.md"));
    }
  }
}

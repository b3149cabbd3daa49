/**
 * The post index the blog builds once at start-up (main.js:42-52): every
 * directory entry whose extension is `md` becomes a post record `{name}`,
 * named after the text before the file name's first dot, with the post's
 * front-matter fields laid over it.
 *
 * A post is a JavaScript object whose fields are all front-matter strings,
 * so it is modelled as a map from field name to value. Reading a file and
 * parsing its front matter are outside the model: the parser's result for
 * each file name is the parameter `frontMatter`.
 */
module PostIndex {
  import opened Text

  type Post = map<String, String>
  type Metadata = map<String, String>

  const NAME: String := "name"
  const EXTENSION: String := "md"

  /** `file.split('.').pop() == 'md'`. */
  predicate IsMarkdown(file: String) {
    LastSegment(file, '.') == EXTENSION
  }

  /** An entry is kept exactly when it is called `md` or ends in `.md`
      (so `.md` itself is kept, and `notes.md.bak` is not). */
  lemma IsMarkdownIff(file: String)
    ensures IsMarkdown(file) <==>
      file == EXTENSION || (|file| >= 3 && file[|file| - 3..] == ".md")
  {
    var l := LastSegment(file, '.');
    LastSegmentIsSuffix(file, '.');
    if file == EXTENSION {
      assert '.' !in file;
      SplitWithoutSeparator(file, '.');
    } else if |file| >= 3 && file[|file| - 3..] == ".md" {
      var n := |file|;
      assert file[n - 3] == '.' && file[n - 2] == 'm' && file[n - 1] == 'd';
      assert |l| == 2;
    }
  }

  /** `file.split('.').shift()`: the file name up to its first dot. */
  function BaseName(file: String): (name: String)
    ensures '.' !in name
    ensures |name| <= |file| && name == file[..|name|]
    ensures |name| < |file| ==> file[|name|] == '.'
  {
    FirstSegmentIsPrefix(file, '.');
    FirstSegment(file, '.')
  }

  /** The record each post starts as: `{ name: <base name> }`. */
  function BaseRecord(file: String): (post: Post)
    ensures post.Keys == {NAME}
    ensures post[NAME] == BaseName(file) && '.' !in post[NAME]
  {
    map[NAME := BaseName(file)]
  }

  /** `Object.assign(post, metadata)`: every metadata field overwrites the
      field of the same name, and the other fields keep their values. */
  function Overlay(post: Post, metadata: Metadata): (merged: Post)
    ensures merged.Keys == post.Keys + metadata.Keys
    ensures forall k :: k in metadata ==> merged[k] == metadata[k]
    ensures forall k :: k in post && k !in metadata ==> merged[k] == post[k]
  {
    post + metadata
  }

  /** The record cached for one Markdown file. */
  function MakePost(file: String, metadata: Metadata): Post
  {
    Overlay(BaseRecord(file), metadata)
  }

  /** Every cached record has a `name`; it is the front matter's `name`
      when there is one, and the dot-free base name of the file otherwise. */
  lemma MakePostName(file: String, metadata: Metadata)
    ensures NAME in MakePost(file, metadata)
    ensures NAME in metadata ==> MakePost(file, metadata)[NAME] == metadata[NAME]
    ensures NAME !in metadata ==>
      MakePost(file, metadata)[NAME] == BaseName(file) && '.' !in MakePost(file, metadata)[NAME]
    ensures MakePost(file, metadata).Keys == {NAME} + metadata.Keys
  {
  }

  /** The index of a directory listing: the records of its Markdown
      entries, in listing order. */
  function Index(files: seq<String>, frontMatter: String -> Metadata): seq<Post>
  {
    if files == [] then []
    else
      var file := files[|files| - 1];
      Index(files[..|files| - 1], frontMatter)
        + (if IsMarkdown(file) then [MakePost(file, frontMatter(file))] else [])
  }

  /** The start-up loop of main.js: walks the listing and pushes one record
      per Markdown entry onto the post list. */
  method BuildIndex(files: seq<String>, frontMatter: String -> Metadata) returns (posts: seq<Post>)
    ensures posts == Index(files, frontMatter)
  {
    posts := [];
    for i := 0 to |files|
      invariant posts == Index(files[..i], frontMatter)
    {
      var file := files[i];
      assert files[..i + 1][..i] == files[..i];
      if LastSegment(file, '.') == EXTENSION {
        var post := map[NAME := FirstSegment(file, '.')];
        post := post + frontMatter(file);
        posts := posts + [post];
      }
    }
    assert files[..|files|] == files;
  }

  /** The index of a concatenated listing is the concatenation of the
      indexes: entries are taken in order, each on its own. */
  lemma {:induction false} IndexAppend(a: seq<String>, b: seq<String>, frontMatter: String -> Metadata)
    ensures Index(a + b, frontMatter) == Index(a, frontMatter) + Index(b, frontMatter)
  {
    if b == [] {
      assert a + b == a;
    } else {
      var n := |b| - 1;
      IndexAppend(a, b[..n], frontMatter);
      assert (a + b)[..|a + b| - 1] == a + b[..n];
      assert (a + b)[|a + b| - 1] == b[n];
    }
  }

  /** The places in `files` of the Markdown entries, in increasing order. */
  ghost function MarkdownPositions(files: seq<String>): seq<nat>
  {
    if files == [] then []
    else
      var n := |files| - 1;
      MarkdownPositions(files[..n]) + (if IsMarkdown(files[n]) then [n] else [])
  }

  /** There is one record per Markdown place, and the k-th record is built
      from the entry at the k-th Markdown place. */
  lemma {:induction false} MarkdownPositionsSound(files: seq<String>, frontMatter: String -> Metadata)
    ensures |MarkdownPositions(files)| == |Index(files, frontMatter)|
    ensures forall k :: 0 <= k < |MarkdownPositions(files)| ==>
      && MarkdownPositions(files)[k] < |files|
      && IsMarkdown(files[MarkdownPositions(files)[k]])
      && Index(files, frontMatter)[k]
        == MakePost(files[MarkdownPositions(files)[k]], frontMatter(files[MarkdownPositions(files)[k]]))
  {
    if files != [] {
      var n := |files| - 1;
      var front := files[..n];
      MarkdownPositionsSound(front, frontMatter);
      var positions, earlier := MarkdownPositions(files), MarkdownPositions(front);
      var index, frontIndex := Index(files, frontMatter), Index(front, frontMatter);
      forall k | 0 <= k < |positions|
        ensures positions[k] < |files| && IsMarkdown(files[positions[k]])
        ensures index[k] == MakePost(files[positions[k]], frontMatter(files[positions[k]]))
      {
        if k < |earlier| {
          assert positions[k] == earlier[k] && index[k] == frontIndex[k];
          assert files[earlier[k]] == front[earlier[k]];
        }
      }
    }
  }

  /** The Markdown places are listed in increasing order. */
  lemma {:induction false} MarkdownPositionsIncreasing(files: seq<String>)
    ensures forall k :: 0 <= k < |MarkdownPositions(files)| ==> MarkdownPositions(files)[k] < |files|
    ensures forall k, m :: 0 <= k < m < |MarkdownPositions(files)| ==>
      MarkdownPositions(files)[k] < MarkdownPositions(files)[m]
  {
    if files != [] {
      MarkdownPositionsIncreasing(files[..|files| - 1]);
    }
  }

  /** Every Markdown place is listed. */
  lemma {:induction false} MarkdownPositionsComplete(files: seq<String>)
    ensures forall j :: 0 <= j < |files| && IsMarkdown(files[j]) ==> j in MarkdownPositions(files)
  {
    if files != [] {
      var n := |files| - 1;
      var front := files[..n];
      MarkdownPositionsComplete(front);
      var positions, earlier := MarkdownPositions(files), MarkdownPositions(front);
      forall j | 0 <= j < |files| && IsMarkdown(files[j])
        ensures j in positions
      {
        if j < n {
          assert front[j] == files[j];
          assert j in earlier;
          var k :| 0 <= k < |earlier| && earlier[k] == j;
          assert positions[k] == j;
        } else {
          assert positions == earlier + [n];
        }
      }
    }
  }

  /** The index holds exactly one record per Markdown entry, in listing
      order: `positions` lists the Markdown entries' places in the listing,
      in increasing order, and the k-th record is built from the entry at
      `positions[k]`. */
  lemma IndexPositions(files: seq<String>, frontMatter: String -> Metadata)
    returns (positions: seq<nat>)
    ensures |positions| == |Index(files, frontMatter)|
    ensures forall k :: 0 <= k < |positions| ==>
      && positions[k] < |files|
      && IsMarkdown(files[positions[k]])
      && Index(files, frontMatter)[k] == MakePost(files[positions[k]], frontMatter(files[positions[k]]))
    ensures forall k, m :: 0 <= k < m < |positions| ==> positions[k] < positions[m]
    ensures forall j :: 0 <= j < |files| && IsMarkdown(files[j]) ==> j in positions
  {
    positions := MarkdownPositions(files);
    MarkdownPositionsSound(files, frontMatter);
    MarkdownPositionsIncreasing(files);
    MarkdownPositionsComplete(files);
  }

  /** A listing without Markdown entries gives an empty index. */
  lemma {:induction false} IndexWithoutMarkdown(files: seq<String>, frontMatter: String -> Metadata)
    requires forall j :: 0 <= j < |files| ==> !IsMarkdown(files[j])
    ensures Index(files, frontMatter) == []
  {
    if files != [] {
      IndexWithoutMarkdown(files[..|files| - 1], frontMatter);
    }
  }

  /** A listing of a Markdown entry, another entry and a Markdown entry
      indexes the first and the last, in that order. */
  lemma IndexOfThree(a: String, other: String, b: String, frontMatter: String -> Metadata)
    requires IsMarkdown(a) && !IsMarkdown(other) && IsMarkdown(b)
    ensures Index([a, other, b], frontMatter) == [MakePost(a, frontMatter(a)), MakePost(b, frontMatter(b))]
  {
    assert Index([a], frontMatter) == [MakePost(a, frontMatter(a))] by {
      assert Index([a][..0], frontMatter) == [];
    }
    assert Index([other], frontMatter) == [] by {
      assert Index([other][..0], frontMatter) == [];
    }
    assert Index([b], frontMatter) == [MakePost(b, frontMatter(b))] by {
      assert Index([b][..0], frontMatter) == [];
    }
    assert [a, other, b] == [a] + [other] + [b];
    IndexAppend([a], [other], frontMatter);
    IndexAppend([a] + [other], [b], frontMatter);
  }
}

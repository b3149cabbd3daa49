/**
 * The string primitives of JavaScript that the blog's post index and its
 * queries rely on: `split`, `trim`, `indexOf`/`includes` and the
 * single-replacement form of `replace` with a string pattern.
 * Strings are sequences of characters; JavaScript's UTF-16 code units are
 * not distinguished from code points here.
 */
module Text {

  type String = seq<char>

  /* ---------------------------------------------------------------------- */
  /* Whitespace and trim                                                    */
  /* ---------------------------------------------------------------------- */

  /** The code points that `String.prototype.trim` removes: ECMAScript's
      WhiteSpace (tab, vertical tab, form feed, space, no-break space, the
      byte-order mark and the Unicode space separators) and its
      LineTerminator (line feed, carriage return, line and paragraph
      separators). */
  predicate IsWhitespace(c: char) {
    || c == '\t' || c == '\n' || c == '\U{000B}' || c == '\U{000C}' || c == '\r'
    || c == ' ' || c == '\U{00A0}' || c == '\U{1680}'
    || ('\U{2000}' <= c <= '\U{200A}')
    || c == '\U{2028}' || c == '\U{2029}' || c == '\U{202F}' || c == '\U{205F}'
    || c == '\U{3000}' || c == '\U{FEFF}'
  }

  /** Removes the leading whitespace: the result is the suffix of `s` that
      starts at its first non-whitespace character. */
  function TrimStart(s: String): (r: String)
    ensures |r| <= |s| && r == s[|s| - |r|..]
    ensures forall k :: 0 <= k < |s| - |r| ==> IsWhitespace(s[k])
    ensures r != [] ==> !IsWhitespace(r[0])
  {
    if s != [] && IsWhitespace(s[0]) then TrimStart(s[1..]) else s
  }

  /** Removes the trailing whitespace: the result is the prefix of `s` that
      ends at its last non-whitespace character. */
  function TrimEnd(s: String): (r: String)
    ensures |r| <= |s| && r == s[..|r|]
    ensures forall k :: |r| <= k < |s| ==> IsWhitespace(s[k])
    ensures r != [] ==> !IsWhitespace(r[|r| - 1])
  {
    if s != [] && IsWhitespace(s[|s| - 1]) then TrimEnd(s[..|s| - 1]) else s
  }

  /** `String.prototype.trim`: neither end of the result is whitespace. */
  function Trim(s: String): (r: String)
    ensures r != [] ==> !IsWhitespace(r[0]) && !IsWhitespace(r[|r| - 1])
  {
    TrimEnd(TrimStart(s))
  }

  /** `Trim(s)` is the slice `s[i..j]` that is left once every whitespace
      character before `i` and from `j` on is cut away. */
  lemma TrimIsSlice(s: String) returns (i: nat, j: nat)
    ensures i <= j <= |s| && Trim(s) == s[i..j]
    ensures forall k :: 0 <= k < i ==> IsWhitespace(s[k])
    ensures forall k :: j <= k < |s| ==> IsWhitespace(s[k])
  {
    var t := TrimStart(s);
    i := |s| - |t|;
    j := i + |TrimEnd(t)|;
    forall k | j <= k < |s| ensures IsWhitespace(s[k]) {
      assert s[k] == t[k - i];
    }
  }

  /** A string that neither starts nor ends with whitespace is left as it
      is by trimming. */
  lemma TrimLeavesSolid(s: String)
    requires s != [] ==> !IsWhitespace(s[0]) && !IsWhitespace(s[|s| - 1])
    ensures Trim(s) == s
  {
    assert TrimStart(s) == s;
  }

  /** Trimming twice is trimming once. */
  lemma TrimIdempotent(s: String)
    ensures Trim(Trim(s)) == Trim(s)
  {
    TrimLeavesSolid(Trim(s));
  }

  /* ---------------------------------------------------------------------- */
  /* split and join                                                         */
  /* ---------------------------------------------------------------------- */

  /** `s.split(sep)` for a one-character separator: the maximal runs of
      non-separator characters between separators, empty runs included.
      There is always at least one part, and no part holds a separator. */
  function Split(s: String, sep: char): (parts: seq<String>)
    ensures |parts| >= 1
    ensures forall k :: 0 <= k < |parts| ==> sep !in parts[k]
  {
    if s == [] then [[]]
    else
      var rest := Split(s[1..], sep);
      if s[0] == sep then [[]] + rest
      else [[s[0]] + rest[0]] + rest[1..]
  }

  /** `parts.join(sep)`: the parts with one separator between neighbours. */
  function Join(parts: seq<String>, sep: char): String
  {
    if |parts| == 0 then []
    else if |parts| == 1 then parts[0]
    else parts[0] + [sep] + Join(parts[1..], sep)
  }

  /** Joining the parts of a split gives back the original string. */
  lemma {:induction false} JoinSplit(s: String, sep: char)
    ensures Join(Split(s, sep), sep) == s
  {
    if s != [] {
      var rest := Split(s[1..], sep);
      JoinSplit(s[1..], sep);
      var parts := Split(s, sep);
      if s[0] == sep {
        assert parts[1..] == rest;
      } else if |rest| == 1 {
        assert parts == [[s[0]] + rest[0]];
      } else {
        assert parts[1..] == rest[1..];
        assert Join(rest, sep) == rest[0] + [sep] + Join(rest[1..], sep);
      }
    }
  }

  /** A string without the separator splits into itself alone. */
  lemma {:induction false} SplitWithoutSeparator(p: String, sep: char)
    requires sep !in p
    ensures Split(p, sep) == [p]
  {
    if p != [] {
      SplitWithoutSeparator(p[1..], sep);
      assert p[0] != sep;
      assert [p[0]] + p[1..] == p;
    }
  }

  /** A separator-free head followed by a separator splits off as the
      first part. */
  lemma {:induction false} SplitAfterHead(p: String, sep: char, t: String)
    requires sep !in p
    ensures Split(p + [sep] + t, sep) == [p] + Split(t, sep)
  {
    if p != [] {
      SplitAfterHead(p[1..], sep, t);
      assert (p + [sep] + t)[1..] == p[1..] + [sep] + t;
      assert [p[0]] + p[1..] == p;
    } else {
      assert p + [sep] + t == [sep] + t;
      assert ([sep] + t)[1..] == t;
    }
  }

  /** Splitting the join of separator-free parts gives back the parts. */
  lemma {:induction false} SplitJoin(parts: seq<String>, sep: char)
    requires |parts| >= 1
    requires forall k :: 0 <= k < |parts| ==> sep !in parts[k]
    ensures Split(Join(parts, sep), sep) == parts
  {
    if |parts| == 1 {
      SplitWithoutSeparator(parts[0], sep);
    } else {
      SplitJoin(parts[1..], sep);
      SplitAfterHead(parts[0], sep, Join(parts[1..], sep));
      assert [parts[0]] + parts[1..] == parts;
    }
  }

  /** The last part is joined on after a final separator. */
  lemma {:induction false} JoinLast(parts: seq<String>, sep: char)
    requires |parts| >= 2
    ensures Join(parts, sep) == Join(parts[..|parts| - 1], sep) + [sep] + parts[|parts| - 1]
  {
    var n := |parts|;
    if n > 2 {
      JoinLast(parts[1..], sep);
      assert parts[1..][..n - 2] == parts[..n - 1][1..];
      assert parts[1..][n - 2] == parts[n - 1];
    }
  }

  /** `s.split(sep).shift()`: the text before the first separator. */
  function FirstSegment(s: String, sep: char): String
  {
    Split(s, sep)[0]
  }

  /** `s.split(sep).pop()`: the text after the last separator. */
  function LastSegment(s: String, sep: char): String
  {
    var parts := Split(s, sep);
    parts[|parts| - 1]
  }

  /** The first segment is the longest separator-free prefix of `s`: it is
      a prefix, holds no separator, and is followed by a separator unless
      it is all of `s`. */
  lemma FirstSegmentIsPrefix(s: String, sep: char)
    ensures var f := FirstSegment(s, sep);
      && |f| <= |s| && f == s[..|f|] && sep !in f
      && (|f| < |s| ==> s[|f|] == sep)
  {
    var parts := Split(s, sep);
    JoinSplit(s, sep);
    if |parts| > 1 {
      assert s == parts[0] + [sep] + Join(parts[1..], sep);
    }
  }

  /** The last segment is the longest separator-free suffix of `s`: it is
      a suffix, holds no separator, and is preceded by a separator unless
      it is all of `s`. */
  lemma LastSegmentIsSuffix(s: String, sep: char)
    ensures var l := LastSegment(s, sep);
      && |l| <= |s| && l == s[|s| - |l|..] && sep !in l
      && (|l| < |s| ==> s[|s| - |l| - 1] == sep)
  {
    var parts := Split(s, sep);
    JoinSplit(s, sep);
    if |parts| > 1 {
      JoinLast(parts, sep);
      var l := parts[|parts| - 1];
      var front := Join(parts[..|parts| - 1], sep);
      assert s == front + [sep] + l;
      assert s[|s| - |l|..] == l;
    }
  }

  /* ---------------------------------------------------------------------- */
  /* indexOf, includes, replace                                             */
  /* ---------------------------------------------------------------------- */

  /** `t` occurs in `s` starting at position `i`. */
  predicate OccursAt(s: String, t: String, i: int) {
    0 <= i && i + |t| <= |s| && s[i..i + |t|] == t
  }

  /** An occurrence in `s[1..]` is an occurrence in `s` one place later. */
  lemma OccursAtTail(s: String, t: String, i: int)
    requires s != [] && 0 <= i
    ensures OccursAt(s[1..], t, i) <==> OccursAt(s, t, i + 1)
  {
    if 0 <= i && i + 1 + |t| <= |s| {
      assert s[1..][i..i + |t|] == s[i + 1..i + 1 + |t|];
    }
  }

  /** `s.indexOf(t)`: the position of the leftmost occurrence of `t` in
      `s`, or -1 when there is none. */
  function IndexOf(s: String, t: String): (r: int)
    ensures r == -1 || OccursAt(s, t, r)
    ensures forall i :: 0 <= i && (r == -1 || i < r) ==> !OccursAt(s, t, i)
  {
    if |t| > |s| then -1
    else if s[..|t|] == t then 0
    else
      var k := IndexOf(s[1..], t);
      assert forall i :: 1 <= i ==> (OccursAt(s, t, i) <==> OccursAt(s[1..], t, i - 1)) by {
        forall i | 1 <= i ensures OccursAt(s, t, i) <==> OccursAt(s[1..], t, i - 1) {
          OccursAtTail(s, t, i - 1);
        }
      }
      assert !OccursAt(s, t, 0) by { assert s[0..|t|] == s[..|t|]; }
      if k == -1 then -1 else k + 1
  }

  /** `s.includes(t)`. */
  predicate Includes(s: String, t: String) {
    IndexOf(s, t) != -1
  }

  /** `includes` holds exactly when some occurrence exists; in particular
      every string includes the empty string. */
  lemma IncludesIff(s: String, t: String)
    ensures Includes(s, t) <==> exists i :: OccursAt(s, t, i)
    ensures Includes(s, [])
  {
    assert OccursAt(s, [], 0);
  }

  /** `s.replace(pat, rep)` with a string pattern and a replacement free of
      `$` patterns: only the leftmost occurrence of `pat` is replaced. */
  function ReplaceFirst(s: String, pat: String, rep: String): String
  {
    var i := IndexOf(s, pat);
    if i == -1 then s else s[..i] + rep + s[i + |pat|..]
  }
}

/**
 The site header's blog search: the live filter over the titles fetched from
 `/api/blogfetch`, and the highlighter for the empty query.
 */
module Header {
  import opened Js
  import Lists

  /** The title of a post, when it has a string one. */
  predicate HasTitle(blog: Json) {
    OptGet(blog, "post_title").JStr?
  }

  /** Whether the lower-cased title can be computed: the post is not
      null or undefined, and its title is missing or a string. */
  predicate Searchable(blog: Json) {
    !blog.Nullish() && (OptGet(blog, "post_title").Nullish() || HasTitle(blog))
  }

  predicate Matches(blog: Json, query: string) {
    HasTitle(blog) && Contains(ToLower(OptGet(blog, "post_title").s), ToLower(query))
  }

  /** The header's live search: the posts whose lower-cased title contains the
      lower-cased query. A post without a title is dropped; a post that is null,
      or whose title is not a string, makes the filter throw. */
  function FilteredBlogs(blogs: seq<Json>, query: string): (r: Eval<seq<Json>>)
    ensures r.Ok? <==> forall i :: 0 <= i < |blogs| ==> Searchable(blogs[i])
    ensures r.Ok? ==> Lists.IsSubseq(r.value, blogs)
    ensures r.Ok? ==> forall k :: 0 <= k < |r.value| ==> HasTitle(r.value[k]) && Matches(r.value[k], query)
  {
    if forall i :: 0 <= i < |blogs| ==> Searchable(blogs[i]) then
      Ok(Lists.Filter(blogs, (b: Json) => Matches(b, query)))
    else Throws
  }

  /** A post is listed exactly when it has a title containing the query, ignoring
      letter case. */
  lemma FilteredBlogsExactly(blogs: seq<Json>, query: string, b: Json)
    requires FilteredBlogs(blogs, query).Ok?
    ensures b in FilteredBlogs(blogs, query).value <==> b in blogs && Matches(b, query)
  {
    Lists.FilterMembership(blogs, (x: Json) => Matches(x, query), b);
  }

  /** The empty query lists every post that has a title. */
  lemma EmptyQueryKeepsTitled(blogs: seq<Json>, b: Json)
    requires FilteredBlogs(blogs, "").Ok?
    ensures b in FilteredBlogs(blogs, "").value <==> b in blogs && HasTitle(b)
  {
    FilteredBlogsExactly(blogs, "", b);
    if HasTitle(b) {
      assert OccursAt(ToLower(OptGet(b, "post_title").s), "", 0);
    }
  }

  // ---------------------------------------------------------------------------
  // Highlighting

  /** The characters that mean something in a regular expression pattern. */
  predicate IsRegexMeta(c: char) {
    c in "\\^$.|?*+()[]{}"
  }

  /** A query that the highlighter's regular expression reads as plain text: it
      holds no metacharacter. */
  predicate Literal(query: string) {
    forall k :: 0 <= k < |query| ==> !IsRegexMeta(query[k])
  }

  /** A piece of a highlighted title: a character outside any match, or a match. */
  datatype Piece = Plain(c: char) | Mark(m: string)

  /** Whether the query, ignoring case, occurs in `text` at index `i`. */
  predicate MatchAt(text: string, query: string, i: int) {
    0 <= i <= |text| - |query| && ToLower(text[i..i + |query|]) == ToLower(query)
  }

  /** The global case-insensitive scan: left to right, each match taken whole and
      the scan resumed after it. */
  function Pieces(text: string, query: string): (ps: seq<Piece>)
    requires query != ""
    ensures forall k :: 0 <= k < |ps| && ps[k].Mark? ==> ToLower(ps[k].m) == ToLower(query)
    decreases |text|
  {
    if text == [] then []
    else if MatchAt(text, query, 0) then [Mark(text[..|query|])] + Pieces(text[|query|..], query)
    else [Plain(text[0])] + Pieces(text[1..], query)
  }

  /** The text a sequence of pieces spells. */
  function Flat(ps: seq<Piece>): string {
    if ps == [] then ""
    else (match ps[0] case Plain(c) => [c] case Mark(m) => m) + Flat(ps[1..])
  }

  const SpanOpen: string := "<span style=\"color: blue;\">"
  const SpanClose: string := "</span>"

  /** The markup: each match wrapped in a blue span. */
  function Render(ps: seq<Piece>): string {
    if ps == [] then ""
    else (match ps[0] case Plain(c) => [c] case Mark(m) => SpanOpen + m + SpanClose) + Render(ps[1..])
  }

  /** `highlightSearchTerm(text, query)`: the text itself for the empty query,
      otherwise the text with every case-insensitive occurrence of the query
      wrapped in a span. */
  function HighlightSearchTerm(text: string, query: string): (r: string)
    requires Literal(query)
    ensures query == "" ==> r == text
    ensures |r| >= |text|
  {
    if query == "" then text
    else
      var ps := Pieces(text, query);
      PiecesSpellText(text, query);
      RenderLength(ps);
      Render(ps)
  }

  /** The pieces spell the text they were cut from. */
  lemma {:induction false} PiecesSpellText(text: string, query: string)
    requires query != ""
    ensures Flat(Pieces(text, query)) == text
    decreases |text|
  {
    if text != [] {
      if MatchAt(text, query, 0) {
        PiecesSpellText(text[|query|..], query);
        assert text == text[..|query|] + text[|query|..];
      } else {
        PiecesSpellText(text[1..], query);
        assert text == [text[0]] + text[1..];
      }
    }
  }

  predicate HasMark(ps: seq<Piece>) {
    exists k :: 0 <= k < |ps| && ps[k].Mark?
  }

  /** Markup only adds characters, and does add some when there is a match. */
  lemma {:induction false} RenderLength(ps: seq<Piece>)
    ensures |Render(ps)| >= |Flat(ps)|
    ensures HasMark(ps) ==> |Render(ps)| > |Flat(ps)|
    ensures !HasMark(ps) ==> Render(ps) == Flat(ps)
  {
    if ps != [] {
      RenderLength(ps[1..]);
      if HasMark(ps[1..]) {
        var k :| 0 <= k < |ps[1..]| && ps[1..][k].Mark?;
        assert ps[k + 1].Mark?;
      }
      if !HasMark(ps) {
        assert !ps[0].Mark?;
        assert !HasMark(ps[1..]) by {
          forall k | 0 <= k < |ps[1..]| ensures !ps[1..][k].Mark? {
            assert ps[k + 1] == ps[1..][k];
          }
        }
      }
      if HasMark(ps) && !ps[0].Mark? {
        var k :| 0 <= k < |ps| && ps[k].Mark?;
        assert ps[1..][k - 1].Mark?;
      }
    }
  }

  /** A sequence of pieces has a mark iff its head is one or its tail has one. */
  lemma HasMarkCons(p: Piece, ps: seq<Piece>)
    ensures HasMark([p] + ps) <==> p.Mark? || HasMark(ps)
  {
    var qs := [p] + ps;
    if p.Mark? {
      assert qs[0].Mark?;
    }
    if HasMark(ps) {
      var k :| 0 <= k < |ps| && ps[k].Mark?;
      assert qs[k + 1].Mark?;
    }
    if HasMark(qs) && !p.Mark? {
      var k :| 0 <= k < |qs| && qs[k].Mark?;
      assert ps[k - 1].Mark?;
    }
  }

  /** A match in a non-empty text is at its start or is a match in its tail,
      shifted by one. */
  lemma MatchShift(text: string, query: string)
    requires text != []
    ensures (exists i :: MatchAt(text, query, i))
            <==> MatchAt(text, query, 0) || exists i :: MatchAt(text[1..], query, i)
  {
    var rest := text[1..];
    forall i | MatchAt(rest, query, i) ensures MatchAt(text, query, i + 1) {
      assert rest[i..i + |query|] == text[i + 1..i + 1 + |query|];
    }
    forall i | MatchAt(text, query, i) && i != 0 ensures MatchAt(rest, query, i - 1) {
      assert rest[i - 1..i - 1 + |query|] == text[i..i + |query|];
    }
  }

  /** The scan finds a match exactly when the query occurs somewhere in the text. */
  lemma {:induction false} PiecesMarkIffMatch(text: string, query: string)
    requires query != ""
    ensures HasMark(Pieces(text, query)) <==> exists i :: MatchAt(text, query, i)
    decreases |text|
  {
    if text == [] {
      assert forall i :: !MatchAt(text, query, i);
    } else if MatchAt(text, query, 0) {
      HasMarkCons(Mark(text[..|query|]), Pieces(text[|query|..], query));
    } else {
      PiecesMarkIffMatch(text[1..], query);
      HasMarkCons(Plain(text[0]), Pieces(text[1..], query));
      MatchShift(text, query);
    }
  }

  lemma FlatCons(p: Piece, ps: seq<Piece>)
    ensures Flat([p] + ps) == (match p case Plain(c) => [c] case Mark(m) => m) + Flat(ps)
  {
    assert ([p] + ps)[1..] == ps;
  }

  /** A match `n` characters into the text is a match at the start of the rest. */
  lemma MatchAfter(text: string, query: string, n: nat, j: nat)
    requires n <= |text|
    ensures MatchAt(text, query, n + j) <==> MatchAt(text[n..], query, j)
  {
    if j <= |text| - n - |query| {
      assert text[n..][j..j + |query|] == text[n + j..n + j + |query|];
    }
  }

  /** The scan skips no occurrence: a character it leaves plain never starts a
      match in the text. */
  lemma {:induction false} PlainIsNoMatch(text: string, query: string, k: nat)
    requires query != "" && k < |Pieces(text, query)| && Pieces(text, query)[k].Plain?
    ensures !MatchAt(text, query, |Flat(Pieces(text, query)[..k])|)
    decreases |text|
  {
    var ps := Pieces(text, query);
    if k > 0 {
      var n := if MatchAt(text, query, 0) then |query| else 1;
      var rest := text[n..];
      var qs := Pieces(rest, query);
      assert ps == [ps[0]] + qs;
      assert ps[..k] == [ps[0]] + qs[..k - 1];
      FlatCons(ps[0], qs[..k - 1]);
      PlainIsNoMatch(rest, query, k - 1);
      MatchAfter(text, query, n, |Flat(qs[..k - 1])|);
    }
  }

  /** A case-insensitive match is an occurrence in the lower-cased strings. */
  lemma MatchIsLowerOccurrence(text: string, query: string, i: int)
    ensures MatchAt(text, query, i) <==> OccursAt(ToLower(text), ToLower(query), i)
  {
    if 0 <= i <= |text| - |query| {
      assert ToLower(text)[i..i + |query|] == ToLower(text[i..i + |query|]);
    }
  }

  /** The markup leaves the text as it is exactly when the scan marks nothing. */
  lemma HighlightUnchangedIffNoMark(text: string, query: string)
    requires Literal(query) && query != ""
    ensures HighlightSearchTerm(text, query) == text <==> !HasMark(Pieces(text, query))
  {
    PiecesSpellText(text, query);
    RenderLength(Pieces(text, query));
  }

  /** A title is shown verbatim exactly when a non-empty query does not occur in
      it, ignoring case; every match is shown, in its original case. */
  lemma HighlightIffMatch(text: string, query: string)
    requires Literal(query) && query != ""
    ensures HighlightSearchTerm(text, query) == text <==> !Contains(ToLower(text), ToLower(query))
  {
    HighlightUnchangedIffNoMark(text, query);
    PiecesMarkIffMatch(text, query);
    if Contains(ToLower(text), ToLower(query)) {
      var i :| 0 <= i <= |ToLower(text)| - |ToLower(query)| && OccursAt(ToLower(text), ToLower(query), i);
      MatchIsLowerOccurrence(text, query, i);
    } else {
      forall i | MatchAt(text, query, i) ensures false {
        MatchIsLowerOccurrence(text, query, i);
      }
    }
  }
}

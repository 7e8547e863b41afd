/**
 The public blog list: the transform of the `/api/blogpost` reply, the six-post
 page slice, the page count, the page-number window with ellipses, the Prev and
 Next buttons, and the read-time estimate shown on each card.
 */
module BlogPage {
  import opened Js
  import opened Posts

  // ---------------------------------------------------------------------------
  // Transform

  /** A field of the reply item, or the fallback when the field is falsy. */
  function OrElse(v: Json, fallback: Json): (r: Json)
    ensures v.Truthy() ==> r == v
    ensures !v.Truthy() ==> r == fallback
  {
    if v.Truthy() then v else fallback
  }

  /** The content as the page computes it: the `text` of an object content when
      truthy, otherwise the content as a string. The object test also holds of
      null, so a null content reaches the `text` read and throws. */
  function ContentAsWritten(pc: Json, num: real -> string): (r: Eval<Json>)
    ensures r.Throws? <==> pc.JNull?
  {
    if pc.TypeofObject() then
      match Get(pc, "text")
      case Throws => Throws
      case Ok(text) => if text.Truthy() then Ok(text) else Ok(JStr(JsString(pc, num)))
    else Ok(JStr(JsString(pc, num)))
  }

  /** One element of `data.map(...)`, with the content computed by `content`. */
  function Item(item: Json, content: Json): Blog
    requires !item.Nullish()
  {
    Blog(OptGet(item, "id"), OptGet(item, "post_title"), content,
         OrElse(OptGet(item, "category"), JStr("General")),
         OrElse(OptGet(item, "tags"), JStr("")),
         OptGet(item, "createdAt"))
  }

  /** The transform as written: any null or undefined element, or any element whose
      `post_content` is null, makes the whole list fail ("Failed to load
      articles"). */
  function TransformAsWritten(items: seq<Json>, num: real -> string): (r: Eval<seq<Blog>>)
    ensures r.Ok? <==> forall i :: 0 <= i < |items| ==>
      !items[i].Nullish() && !OptGet(items[i], "post_content").JNull?
    ensures r.Ok? ==> |r.value| == |items|
    decreases |items|
  {
    if |items| == 0 then Ok([])
    else
      var item := items[0];
      if item.Nullish() then Throws
      else
        match ContentAsWritten(OptGet(item, "post_content"), num)
        case Throws => Throws
        case Ok(content) =>
          match TransformAsWritten(items[1..], num)
          case Throws => Throws
          case Ok(rest) =>
            assert forall i :: 1 <= i < |items| ==> items[i] == items[1..][i - 1];
            Ok([Item(item, content)] + rest)
  }

  /** The transform with the content normalised as the admin fetcher does it, so
      that a null content reads as the empty string. */
  function Transform(items: seq<Json>, num: real -> string): (r: Eval<seq<Blog>>)
    ensures r.Ok? <==> forall i :: 0 <= i < |items| ==> !items[i].Nullish()
    ensures r.Ok? ==> |r.value| == |items|
    decreases |items|
  {
    if |items| == 0 then Ok([])
    else
      var item := items[0];
      if item.Nullish() then Throws
      else
        match Transform(items[1..], num)
        case Throws => Throws
        case Ok(rest) =>
          assert forall i :: 1 <= i < |items| ==> items[i] == items[1..][i - 1];
          Ok([Item(item, NormalContent(OptGet(item, "post_content"), num))] + rest)
  }

  /** `data.map(...)` on the parsed reply: only an array has `map`. */
  function TransformReply(data: Json, num: real -> string): (r: Eval<seq<Blog>>)
    ensures !data.JArr? ==> r.Throws?
    ensures data.JArr? ==> r == Transform(data.items, num)
  {
    if data.JArr? then Transform(data.items, num) else Throws
  }

  /** Position by position, the transform keeps the id, the title and the date, and
      fills in "General" for a missing category and "" for missing tags. */
  lemma {:induction false} TransformFields(items: seq<Json>, num: real -> string)
    requires Transform(items, num).Ok?
    ensures var r := Transform(items, num).value;
      forall i :: 0 <= i < |items| ==>
        && r[i].id == OptGet(items[i], "id")
        && r[i].title == OptGet(items[i], "post_title")
        && r[i].createdAt == OptGet(items[i], "createdAt")
        && r[i].category.Truthy() && r[i].tags != JUndefined && r[i].tags != JNull
        && (OptGet(items[i], "category").Truthy() ==> r[i].category == OptGet(items[i], "category"))
        && (!OptGet(items[i], "category").Truthy() ==> r[i].category == JStr("General"))
        && (OptGet(items[i], "tags").Truthy() ==> r[i].tags == OptGet(items[i], "tags"))
        && (!OptGet(items[i], "tags").Truthy() ==> r[i].tags == JStr(""))
        && r[i].content == NormalContent(OptGet(items[i], "post_content"), num)
    decreases |items|
  {
    if |items| > 0 {
      TransformFields(items[1..], num);
      var r := Transform(items, num).value;
      var rest := Transform(items[1..], num).value;
      assert r == [Item(items[0], NormalContent(OptGet(items[0], "post_content"), num))] + rest;
      forall i | 1 <= i < |items| ensures r[i] == rest[i - 1] && items[i] == items[1..][i - 1] {
      }
    }
  }

  /** On posts that all carry a content, the as-written transform and the normalised
      one agree: they differ only on a null content (a crash against "") and a
      missing one ("undefined" against ""). */
  lemma {:induction false} AsWrittenAgreesOnPresentContent(items: seq<Json>, num: real -> string)
    requires forall i :: 0 <= i < |items| ==> !items[i].Nullish() && !OptGet(items[i], "post_content").Nullish()
    ensures TransformAsWritten(items, num) == Transform(items, num)
    decreases |items|
  {
    if |items| > 0 {
      assert forall i :: 1 <= i < |items| ==> items[i] == items[1..][i - 1];
      AsWrittenAgreesOnPresentContent(items[1..], num);
      var pc := OptGet(items[0], "post_content");
      assert ContentAsWritten(pc, num) == Ok(NormalContent(pc, num));
    }
  }

  /** A list holding one post whose content is null, as the seed script can store
      it: the page as written fails to load, the normalised transform shows the
      post with empty content. */
  lemma NullContentBreaksTheList(num: real -> string)
    ensures var post := JObj(map["id" := JNum(1.0), "post_title" := JStr("Moving tips"), "post_content" := JNull]);
            && TransformAsWritten([post], num).Throws?
            && Transform([post], num).Ok?
            && Transform([post], num).value[0].content == JStr("")
  {
    var post := JObj(map["id" := JNum(1.0), "post_title" := JStr("Moving tips"), "post_content" := JNull]);
    assert OptGet(post, "post_content") == JNull;
  }

  // ---------------------------------------------------------------------------
  // Pagination

  const PostsPerPage: nat := 6

  /** `Array.prototype.slice(start, end)`: negative bounds count from the end,
      and both are clamped to the array. */
  function SliceIndex(i: int, n: nat): (k: nat)
    ensures k <= n
    ensures 0 <= i <= n ==> k == i
    ensures i > n ==> k == n
    ensures i < 0 ==> k == if n + i >= 0 then n + i else 0
  {
    if i < 0 then Max(n + i, 0) else Min(i, n)
  }

  /** The elements from the clamped start up to the clamped end, none when the
      end does not lie past the start. */
  function Slice<T>(xs: seq<T>, start: int, end: int): (r: seq<T>)
    ensures |r| <= |xs|
    ensures |r| == Max(0, SliceIndex(end, |xs|) - SliceIndex(start, |xs|))
    ensures forall k :: 0 <= k < |r| ==> r[k] == xs[SliceIndex(start, |xs|) + k]
  {
    var s := SliceIndex(start, |xs|);
    var e := SliceIndex(end, |xs|);
    if s < e then xs[s..e] else []
  }

  /** The posts shown on page `page` (counted from 1): six consecutive posts
      starting at the page's first index. */
  function CurrentPosts<T>(blogs: seq<T>, page: int): (r: seq<T>)
    ensures page >= 1 ==> |r| <= PostsPerPage
    ensures page >= 1 && (page - 1) * PostsPerPage < |blogs| ==>
      r == blogs[(page - 1) * PostsPerPage..Min(page * PostsPerPage, |blogs|)]
    ensures page >= 1 && (page - 1) * PostsPerPage >= |blogs| ==> r == []
  {
    Slice(blogs, (page - 1) * PostsPerPage, page * PostsPerPage)
  }

  /** The number of six-post pages needed for `n` posts. */
  function TotalPages(n: nat): (t: nat)
    ensures PostsPerPage * t >= n
    ensures t > 0 ==> PostsPerPage * (t - 1) < n
  {
    (n + PostsPerPage - 1) / PostsPerPage
  }

  /** Every post is on exactly the page its position says, and the pages that
      exist are exactly 1..totalPages: each holds at least one post. */
  lemma PostOnItsPage<T>(blogs: seq<T>, i: nat)
    requires i < |blogs|
    ensures var page := i / PostsPerPage + 1;
            1 <= page <= TotalPages(|blogs|)
            && CurrentPosts(blogs, page)[i % PostsPerPage] == blogs[i]
  {
    var page := i / PostsPerPage + 1;
    assert (page - 1) * PostsPerPage == i - i % PostsPerPage;
  }

  lemma PagesInRangeAreFilled<T>(blogs: seq<T>, page: int)
    requires 1 <= page <= TotalPages(|blogs|)
    ensures CurrentPosts(blogs, page) != []
  {
  }

  datatype PageItem = Num(n: int) | Ellipsis

  /** `getPageNumbers()` */
  function PageNumbers(current: int, total: nat): (r: seq<PageItem>)
    ensures total <= 6 ==> |r| == total && forall k :: 0 <= k < |r| ==> r[k] == Num(k + 1)
    ensures total > 6 ==> 5 <= |r| <= 7 && r[0] == Num(1) && r[|r| - 1] == Num(total)
  {
    if total <= 6 then seq(total, k requires 0 <= k < total => Num(k + 1))
    else if current <= 3 then [Num(1), Num(2), Num(3), Ellipsis, Num(total)]
    else if current > total - 3 then [Num(1), Ellipsis, Num(total - 2), Num(total - 1), Num(total)]
    else [Num(1), Ellipsis, Num(current - 1), Num(current), Num(current + 1), Ellipsis, Num(total)]
  }

  /** The page-number window: its numbers rise strictly, stay within the existing
      pages, and always offer the current page. */
  lemma PageWindow(current: int, total: nat)
    requires 1 <= current <= total
    ensures var r := PageNumbers(current, total);
            && (forall i, j :: 0 <= i < j < |r| && r[i].Num? && r[j].Num? ==> r[i].n < r[j].n)
            && (forall k :: 0 <= k < |r| && r[k].Num? ==> 1 <= r[k].n <= total)
            && Num(current) in r
  {
    var r := PageNumbers(current, total);
    if total <= 6 {
      assert r[current - 1] == Num(current);
    }
  }

  /** An ellipsis always stands for at least one hidden page. */
  lemma EllipsisHidesPages(current: int, total: nat)
    requires 1 <= current <= total
    ensures var r := PageNumbers(current, total);
            forall k :: 0 < k < |r| - 1 && r[k].Ellipsis? ==>
              r[k - 1].Num? && r[k + 1].Num? && r[k - 1].n + 1 < r[k + 1].n
  {
  }

  /** Prev is disabled exactly on page 1, Next exactly on the last page. */
  /** The Prev button is disabled exactly when, from a page in range, there is
      no earlier page. */
  function PrevDisabled(current: int): (b: bool)
    ensures 1 <= current ==> (b <==> current - 1 < 1)
  {
    current == 1
  }

  /** The Next button is disabled exactly when, from a page in range, there is no
      later page. */
  function NextDisabled(current: int, total: nat): (b: bool)
    ensures current <= total ==> (b <==> current + 1 > total)
  {
    current == total
  }

  datatype Click = Prev | NextPage | Page(item: PageItem)

  /** The page after a click on the pagination bar (shown only when there is more
      than one page); a disabled button or the ellipsis leaves the page as it is. */
  function AfterClick(current: int, total: nat, click: Click): (next: int)
    ensures click.Prev? && 1 <= current ==> next == Max(1, current - 1)
    ensures click.NextPage? && current <= total ==> next == Min(total, current + 1)
    ensures click.Page? && click.item.Num? ==> next == click.item.n
    ensures click.Page? && !click.item.Num? ==> next == current
  {
    match click
    case Prev => if PrevDisabled(current) then current else current - 1
    case NextPage => if NextDisabled(current, total) then current else current + 1
    case Page(item) => if item.Num? then item.n else current
  }

  /** A click from a page within 1..totalPages stays within it, so every sequence
      of clicks from page 1 does. */
  lemma ClicksStayInRange(current: int, total: nat, click: Click)
    requires 1 <= current <= total
    requires click.Page? ==> click.item in PageNumbers(current, total)
    ensures 1 <= AfterClick(current, total, click) <= total
  {
    if click.Page? && click.item.Num? {
      PageWindow(current, total);
      var k :| 0 <= k < |PageNumbers(current, total)| && PageNumbers(current, total)[k] == click.item;
    }
  }

  // ---------------------------------------------------------------------------
  // Read time

  /** Whether `s` starts with a tag that ends at index `j`: a `<`, at least one
      character other than `>`, and the `>` at `j`. */
  predicate TagEndsAt(s: string, j: int) {
    2 <= j < |s| && s[0] == '<' && s[j] == '>' && forall m :: 1 <= m < j ==> s[m] != '>'
  }

  /** With the first `>` after an opening `<` at offset `k` of the rest, the tag
      ends right there. */
  lemma TagEndAtFirst(s: string, k: nat)
    requires |s| >= 1 && s[0] == '<' && IndexOf(s[1..], '>') == Some(k) && k >= 1
    ensures TagEndsAt(s, k + 1)
  {
    forall m | 1 <= m < k + 1 ensures s[m] != '>' {
      assert s[m] == s[1..][..k][m - 1];
    }
  }

  /** An opening `<` followed at once by `>`, or by no `>` at all, starts no tag. */
  lemma NoTagEnd(s: string)
    requires |s| >= 1 && s[0] == '<'
    requires IndexOf(s[1..], '>').None? || IndexOf(s[1..], '>') == Some(0)
    ensures forall j :: !TagEndsAt(s, j)
  {
  }

  /** The tag `/<[^>]+>/` finds at the start of `s`, as its length: up to the
      first `>`, which must not come straight after the `<`. */
  function TagAt(s: string): (r: Option<nat>)
    ensures r.Some? ==> 3 <= r.value <= |s| && TagEndsAt(s, r.value - 1)
    ensures r.None? <==> forall j :: !TagEndsAt(s, j)
  {
    if |s| >= 1 && s[0] == '<' then
      match IndexOf(s[1..], '>')
      case Some(k) =>
        if k >= 1 then
          TagEndAtFirst(s, k);
          Some(k + 2)
        else
          NoTagEnd(s);
          None
      case None =>
        NoTagEnd(s);
        None
    else None
  }

  /** Every tag in the text, matched left to right, replaced by one space. */
  function StripTags(s: string): (r: string)
    ensures |r| <= |s|
    ensures |s| > 0 ==> |r| > 0
    decreases |s|
  {
    if |s| == 0 then []
    else match TagAt(s)
      case Some(n) => " " + StripTags(s[n..])
      case None => [s[0]] + StripTags(s[1..])
  }

  /** A whole tag: `<`, at least one character other than `>`, then `>`. */
  predicate IsTag(t: string) {
    TagEndsAt(t, |t| - 1)
  }

  /** A tag begins a text exactly as far as it reaches, whatever follows it. */
  lemma TagAtOfTag(t: string, b: string)
    requires IsTag(t)
    ensures TagAt(t + b) == Some(|t|)
  {
    var s := t + b;
    assert TagEndsAt(s, |t| - 1);
    forall j | TagEndsAt(s, j) ensures j == |t| - 1 {
      assert s[|t| - 1] == '>';
    }
  }

  /** A character other than `<` is kept as it is. */
  lemma StripTagsCons(c: char, tail: string)
    requires c != '<'
    ensures StripTags([c] + tail) == [c] + StripTags(tail)
  {
    assert ([c] + tail)[1..] == tail;
  }

  /** A tag at the front becomes one space. */
  lemma StripTagsTag(t: string, b: string)
    requires IsTag(t)
    ensures StripTags(t + b) == " " + StripTags(b)
  {
    TagAtOfTag(t, b);
    assert (t + b)[|t|..] == b;
  }

  /** Text without `<` passes through, and the tag after it becomes exactly one
      space: `a + tag + b` strips to `a + " " + ` the stripped `b`. */
  lemma {:induction false} StripTagsSplice(a: string, t: string, b: string)
    requires '<' !in a && IsTag(t)
    ensures StripTags(a + t + b) == a + " " + StripTags(b)
    decreases |a|
  {
    if a == [] {
      assert a + t + b == t + b;
      StripTagsTag(t, b);
    } else {
      var c, rest := a[0], a[1..];
      var sb := StripTags(b);
      assert a + t + b == [c] + (rest + t + b);
      StripTagsCons(c, rest + t + b);
      StripTagsSplice(rest, t, b);
      assert [c] + (rest + " " + sb) == a + " " + sb;
    }
  }

  /** No character of the result can start a tag. */
  predicate TagFree(s: string) {
    forall i :: 0 <= i < |s| ==> TagAt(s[i..]).None?
  }

  lemma {:induction false} StripKeepsNoNewClose(s: string)
    ensures '>' in StripTags(s) ==> '>' in s
    ensures |s| > 0 && s[0] == '>' ==> |StripTags(s)| > 0 && StripTags(s)[0] == '>'
    decreases |s|
  {
    if |s| > 0 {
      match TagAt(s)
      case Some(n) => StripKeepsNoNewClose(s[n..]);
      case None => StripKeepsNoNewClose(s[1..]);
    }
  }

  lemma {:induction false} StripTagsIsTagFree(s: string)
    ensures TagFree(StripTags(s))
    decreases |s|
  {
    if |s| > 0 {
      var r := StripTags(s);
      match TagAt(s)
      case Some(n) =>
        StripTagsIsTagFree(s[n..]);
        var rest := StripTags(s[n..]);
        assert r == " " + rest;
        forall i | 0 <= i < |r| ensures TagAt(r[i..]).None? {
          if i > 0 { assert r[i..] == rest[i - 1..]; }
        }
      case None =>
        StripTagsIsTagFree(s[1..]);
        var rest := StripTags(s[1..]);
        assert r == [s[0]] + rest;
        forall i | 0 <= i < |r| ensures TagAt(r[i..]).None? {
          if i > 0 {
            assert r[i..] == rest[i - 1..];
          } else if s[0] == '<' {
            StripKeepsNoNewClose(s[1..]);
            assert r[1..] == rest;
            if IndexOf(s[1..], '>').Some? {
              assert s[1] == '>';
              assert rest[0] == '>';
              assert IndexOf(rest, '>') == Some(0);
            } else {
              assert '>' !in rest;
            }
          }
        }
    }
  }

  /** Text without tags passes through unchanged, so stripping is idempotent. */
  lemma {:induction false} StripTagFree(s: string)
    requires TagFree(s)
    ensures StripTags(s) == s
    decreases |s|
  {
    if |s| > 0 {
      assert s[0..] == s;
      assert TagFree(s[1..]) by {
        forall i | 0 <= i < |s[1..]| ensures TagAt(s[1..][i..]).None? {
          assert s[1..][i..] == s[i + 1..];
        }
      }
      StripTagFree(s[1..]);
    }
  }

  lemma StripTagsIdempotent(s: string)
    ensures StripTags(StripTags(s)) == StripTags(s)
  {
    StripTagsIsTagFree(s);
    StripTagFree(StripTags(s));
  }

  /** The index just past the run of white space that starts at `s[0]`. */
  function SpaceRun(s: string): (n: nat)
    ensures n <= |s|
    ensures forall k :: 0 <= k < n ==> IsSpace(s[k])
    ensures n < |s| ==> !IsSpace(s[n])
  {
    if |s| > 0 && IsSpace(s[0]) then 1 + SpaceRun(s[1..]) else 0
  }

  function FirstSpace(s: string): (r: Option<nat>)
    ensures r.Some? ==> r.value < |s| && IsSpace(s[r.value])
    ensures forall k :: 0 <= k < |s| && (r.None? || k < r.value) ==> !IsSpace(s[k])
  {
    if |s| == 0 then None
    else if IsSpace(s[0]) then Some(0)
    else match FirstSpace(s[1..])
      case None => None
      case Some(i) => Some(i + 1)
  }

  /** Splitting at every maximal run of white space, as the page does before
      counting words. */
  function SplitWs(s: string): (r: seq<string>)
    ensures |r| >= 1
    ensures forall k :: 0 <= k < |r| ==> forall j :: 0 <= j < |r[k]| ==> !IsSpace(r[k][j])
    decreases |s|
  {
    match FirstSpace(s)
    case None => [s]
    case Some(i) =>
      var after := s[i..];
      [s[..i]] + SplitWs(after[SpaceRun(after)..])
  }

  /** Splitting trimmed text yields only non-empty words. */
  lemma {:induction false} SplitWsWords(s: string)
    requires s != [] && !IsSpace(s[0]) && !IsSpace(s[|s| - 1])
    ensures forall k :: 0 <= k < |SplitWs(s)| ==> SplitWs(s)[k] != []
    decreases |s|
  {
    match FirstSpace(s)
    case None =>
    case Some(i) =>
      var after := s[i..];
      var rest := after[SpaceRun(after)..];
      assert i > 0;
      assert after[|after| - 1] == s[|s| - 1];
      assert rest[|rest| - 1] == s[|s| - 1];
      SplitWsWords(rest);
  }

  /** The number of words of `s`, read left to right: the positions holding a
      non-space character with white space, or the start of the text when
      `afterSpace` holds, right before them. */
  function WordsFrom(s: string, afterSpace: bool): nat
    decreases |s|
  {
    if s == [] then 0
    else (if afterSpace && !IsSpace(s[0]) then 1 else 0) + WordsFrom(s[1..], IsSpace(s[0]))
  }

  lemma {:induction false} WordsFromAppend(a: string, b: string, afterSpace: bool)
    ensures WordsFrom(a + b, afterSpace)
            == WordsFrom(a, afterSpace) + WordsFrom(b, if a == [] then afterSpace else IsSpace(a[|a| - 1]))
    decreases |a|
  {
    if a == [] {
      assert a + b == b;
    } else {
      assert (a + b)[0] == a[0];
      assert (a + b)[1..] == a[1..] + b;
      WordsFromAppend(a[1..], b, IsSpace(a[0]));
    }
  }

  lemma {:induction false} WordsFromUniform(s: string, afterSpace: bool)
    ensures (forall k :: 0 <= k < |s| ==> IsSpace(s[k])) ==> WordsFrom(s, afterSpace) == 0
    ensures (forall k :: 0 <= k < |s| ==> !IsSpace(s[k])) ==>
              WordsFrom(s, afterSpace) == if s != [] && afterSpace then 1 else 0
    decreases |s|
  {
    if s != [] {
      WordsFromUniform(s[1..], IsSpace(s[0]));
      assert forall k :: 0 <= k < |s| - 1 ==> s[1..][k] == s[k + 1];
    }
  }

  /** `split(/\s+/)` cuts trimmed text into exactly its words. */
  lemma {:induction false} SplitWsCountsWords(s: string)
    requires s != [] && Trimmed(s)
    ensures |SplitWs(s)| == WordsFrom(s, true)
    decreases |s|
  {
    match FirstSpace(s)
    case None =>
      WordsFromUniform(s, true);
    case Some(i) =>
      var after := s[i..];
      var n := SpaceRun(after);
      var rest := after[n..];
      assert i > 0;
      assert after[|after| - 1] == s[|s| - 1];
      assert n >= 1 && rest != [];
      assert rest[|rest| - 1] == s[|s| - 1];
      SplitWsCountsWords(rest);
      assert s == s[..i] + after;
      WordsFromAppend(s[..i], after, true);
      WordsFromUniform(s[..i], true);
      assert after == after[..n] + rest;
      WordsFromAppend(after[..n], rest, false);
      WordsFromUniform(after[..n], false);
  }

  /** The word count `BlogPage` computes: tags replaced by spaces, the text
      trimmed and split at white space runs. Blank text still counts as one word. */
  function WordCount(content: string): (n: nat)
    ensures n >= 1
    ensures var t := Trim(StripTags(content));
            n == if t == [] then 1 else WordsFrom(t, true)
  {
    var t := Trim(StripTags(content));
    if t == [] then |SplitWs(t)|
    else
      SplitWsCountsWords(t);
      |SplitWs(t)|
  }

  /** The read time for `w` words at 200 words a minute, rounded up and at least
      one minute. */
  function Minutes(w: nat): (m: nat)
    requires w >= 1
    ensures m >= 1
    ensures 200 * (m - 1) < w <= 200 * m
  {
    var m := (w + 199) / 200;
    var r := (w + 199) % 200;
    assert w + 199 == 200 * m + r && 0 <= r < 200;
    Max(1, m)
  }

  /** The reading time of a post, in minutes. */
  function ReadTime(content: string): (minutes: nat)
    ensures minutes >= 1
    ensures 200 * (minutes - 1) < WordCount(content) <= 200 * minutes
  {
    Minutes(WordCount(content))
  }
}

/**
 The admin blog management page: the normalising fetcher over `/api/blogpost`,
 the title search, and the two optimistic updates of the cached list (delete by
 id, and insert-or-replace after the form is saved), plus the form's open and
 close state. The confirm dialog, the network calls and the revalidation that
 follows each update are outside the model.
 */
module BlogManagement {
  import opened Js
  import opened Posts
  import Lists

  // ---------------------------------------------------------------------------
  // Fetcher

  function FetchItems(items: seq<Json>, num: real -> string): (r: Eval<seq<Blog>>)
    ensures r.Ok? <==> forall i :: 0 <= i < |items| ==> !items[i].Nullish()
    ensures r.Ok? ==> |r.value| == |items|
    decreases |items|
  {
    if |items| == 0 then Ok([])
    else
      var item := items[0];
      if item.Nullish() then Throws
      else
        match FetchItems(items[1..], num)
        case Throws => Throws
        case Ok(rest) =>
          assert forall i :: 1 <= i < |items| ==> items[i] == items[1..][i - 1];
          var blog := Blog(OptGet(item, "id"), OptGet(item, "post_title"),
                           NormalContent(OptGet(item, "post_content"), num),
                           OptGet(item, "category"), OptGet(item, "tags"), OptGet(item, "createdAt"));
          Ok([blog] + rest)
  }

  /** The fetcher's mapping of the reply: a falsy reply is an empty list, an array is mapped
      element by element, and anything else has no `map` and throws. */
  function Fetch(data: Json, num: real -> string): (r: Eval<seq<Blog>>)
    ensures !data.Truthy() ==> r == Ok([])
    ensures data.Truthy() && !data.JArr? ==> r.Throws?
    ensures data.JArr? ==> r == FetchItems(data.items, num)
  {
    if !data.Truthy() then Ok([])
    else if data.JArr? then FetchItems(data.items, num)
    else Throws
  }

  /** Position by position the fetcher keeps the id, title, category, tags and
      creation date, and normalises the content. */
  lemma {:induction false} FetchItemsFields(items: seq<Json>, num: real -> string)
    requires FetchItems(items, num).Ok?
    ensures var r := FetchItems(items, num).value;
      forall i :: 0 <= i < |items| ==>
        && r[i].id == OptGet(items[i], "id")
        && r[i].title == OptGet(items[i], "post_title")
        && r[i].content == NormalContent(OptGet(items[i], "post_content"), num)
        && (r[i].content.JStr? || r[i].content.Truthy())
        && r[i].category == OptGet(items[i], "category")
        && r[i].tags == OptGet(items[i], "tags")
        && r[i].createdAt == OptGet(items[i], "createdAt")
    decreases |items|
  {
    if |items| > 0 {
      FetchItemsFields(items[1..], num);
      var r := FetchItems(items, num).value;
      var rest := FetchItems(items[1..], num).value;
      assert r[1..] == rest;
      forall i | 1 <= i < |items| ensures r[i] == rest[i - 1] && items[i] == items[1..][i - 1] {
      }
    }
  }

  // ---------------------------------------------------------------------------
  // Search

  /** The text a post is searched by: its title lower-cased and trimmed. A missing
      title indexes as the empty string, and a title that is not a string has no
      lower-casing method, so indexing it throws. */
  function SearchTitle(title: Json): (r: Eval<string>)
    ensures r.Throws? <==> !title.Nullish() && !title.JStr?
    ensures title.Nullish() ==> r == Ok("")
    ensures title.JStr? ==> r.Ok? && Trimmed(r.value) && |r.value| == |Trim(title.s)|
    ensures title.JStr? ==> forall k :: 0 <= k < |r.value| ==>
      r.value[k] == LowerChar(Trim(title.s)[k]) && !IsUpper(r.value[k])
  {
    if title.Nullish() then Ok("")
    else if title.JStr? then TrimLowerChars(title.s); Ok(Trim(ToLower(title.s)))
    else Throws
  }

  /** Whether every title can be indexed, which the page needs before it filters. */
  predicate Indexable(blogs: seq<Blog>) {
    forall i :: 0 <= i < |blogs| ==> SearchTitle(blogs[i].title).Ok?
  }

  predicate TitleHas(b: Blog, q: string) {
    SearchTitle(b.title).Ok? && Contains(SearchTitle(b.title).value, q)
  }

  function Query(search: string): string {
    Trim(ToLower(search))
  }

  /** `filteredPosts`: every post for a blank query, otherwise the posts whose
      indexed title contains the query, in their order. */
  function FilteredPosts(blogs: seq<Blog>, search: string): (r: Eval<seq<Blog>>)
    ensures r.Ok? <==> Indexable(blogs)
    ensures r.Ok? && Query(search) == "" ==> r.value == blogs
    ensures r.Ok? ==> Lists.IsSubseq(r.value, blogs)
    ensures r.Ok? ==> forall k :: 0 <= k < |r.value| ==> Query(search) == "" || TitleHas(r.value[k], Query(search))
  {
    if !Indexable(blogs) then Throws
    else
      var q := Query(search);
      if q == "" then
        assert Lists.Filter(blogs, (b: Blog) => true) == blogs by {
          Lists.FilterAll(blogs, (b: Blog) => true);
        }
        Ok(blogs)
      else Ok(Lists.Filter(blogs, (b: Blog) => TitleHas(b, q)))
  }

  /** A non-blank query keeps a post exactly when its title contains the query. */
  lemma FilteredPostsExactly(blogs: seq<Blog>, search: string, b: Blog)
    requires Indexable(blogs) && Query(search) != ""
    ensures b in FilteredPosts(blogs, search).value <==> b in blogs && TitleHas(b, Query(search))
  {
    Lists.FilterMembership(blogs, (x: Blog) => TitleHas(x, Query(search)), b);
  }

  lemma LowerOfUpper(s: string)
    ensures ToLower(ToUpper(s)) == ToLower(s)
  {
  }

  /** The search ignores the letter case of the query. */
  lemma SearchIgnoresQueryCase(blogs: seq<Blog>, search: string)
    ensures FilteredPosts(blogs, ToUpper(search)) == FilteredPosts(blogs, search)
  {
    LowerOfUpper(search);
  }

  // ---------------------------------------------------------------------------
  // Optimistic updates of the cached list

  /** The optimistic delete: the cached list, or an empty one, without the posts
      whose id is strictly equal to `id`. */
  function DeleteById(current: Option<seq<Blog>>, id: Json): (r: seq<Blog>)
    ensures forall k :: 0 <= k < |r| ==> !StrictEq(r[k].id, id)
    ensures Lists.IsSubseq(r, current.GetOr([]))
    ensures forall b :: b in current.GetOr([]) && !StrictEq(b.id, id) ==>
      multiset(r)[b] == multiset(current.GetOr([]))[b]
  {
    Lists.Filter(current.GetOr([]), (b: Blog) => !StrictEq(b.id, id))
  }

  /** Deleting an id nobody has changes nothing; deleting twice is deleting once. */
  lemma DeleteAbsentId(blogs: seq<Blog>, id: Json)
    requires forall k :: 0 <= k < |blogs| ==> !StrictEq(blogs[k].id, id)
    ensures DeleteById(Some(blogs), id) == blogs
  {
    Lists.FilterAll(blogs, (b: Blog) => !StrictEq(b.id, id));
  }

  lemma DeleteIdempotent(current: Option<seq<Blog>>, id: Json)
    ensures DeleteById(Some(DeleteById(current, id)), id) == DeleteById(current, id)
  {
    DeleteAbsentId(DeleteById(current, id), id);
  }

  /** `handleUpdateBlog`'s updater: prepend a blog whose id is not in the list,
      otherwise replace the first blog with that id. */
  function Upsert(current: Option<seq<Blog>>, updated: Blog): (r: seq<Blog>)
    ensures var xs := current.GetOr([]);
      var idx := Lists.FindIndex(xs, (b: Blog) => StrictEq(b.id, updated.id));
      && (idx.None? ==> |r| == |xs| + 1 && r[0] == updated && r[1..] == xs)
      && (idx.Some? ==>
            && |r| == |xs| && r[idx.value] == updated
            && (forall k :: 0 <= k < |xs| && k != idx.value ==> r[k] == xs[k])
            && (forall k :: 0 <= k < idx.value ==> !StrictEq(xs[k].id, updated.id)))
  {
    var xs := current.GetOr([]);
    match Lists.FindIndex(xs, (b: Blog) => StrictEq(b.id, updated.id))
    case None => [updated] + xs
    case Some(i) => xs[i := updated]
  }

  /** Saving the same blog twice leaves the list as saving it once, as long as its
      id is a primitive value that `===` can match. */
  lemma UpsertIdempotent(current: Option<seq<Blog>>, updated: Blog)
    requires updated.id.Primitive()
    ensures Upsert(Some(Upsert(current, updated)), updated) == Upsert(current, updated)
  {
    var xs := current.GetOr([]);
    var r := Upsert(current, updated);
    var p := (b: Blog) => StrictEq(b.id, updated.id);
    var idx := Lists.FindIndex(xs, p);
    if idx.None? {
      assert p(r[0]);
      assert Lists.FindIndex(r, p) == Some(0);
      assert r[0 := updated] == r;
    } else {
      var i := idx.value;
      assert forall k :: 0 <= k < i ==> r[k] == xs[k];
      assert Lists.FindIndex(r, p) == Some(i);
      assert r[i := updated] == r;
    }
  }

  // ---------------------------------------------------------------------------
  // Form state

  datatype FormState = FormState(visible: bool, editing: Option<Blog>)

  datatype FormEvent = CreateNew | EditClick(blog: Blog) | CloseModal | Saved(blog: Blog)

  /** The form's state after each handler: create opens it empty, edit opens it on
      the chosen blog, and both closing and saving hide it and forget the blog. */
  function FormStep(s: FormState, e: FormEvent): (t: FormState)
    ensures t.visible <==> e.CreateNew? || e.EditClick?
    ensures t.editing.Some? <==> e.EditClick?
    ensures e.EditClick? ==> t.editing == Some(e.blog)
  {
    match e
    case CreateNew => FormState(true, None)
    case EditClick(b) => FormState(true, Some(b))
    case CloseModal => FormState(false, None)
    case Saved(_) => FormState(false, None)
  }

  /** The form never holds a blog while hidden: whatever the events, edit data
      exists only while the form is shown. */
  lemma {:induction false} FormHoldsBlogOnlyWhenVisible(s: FormState, events: seq<FormEvent>)
    requires s.editing.Some? ==> s.visible
    ensures var t := FormRun(s, events); t.editing.Some? ==> t.visible
    decreases |events|
  {
    if |events| > 0 {
      FormHoldsBlogOnlyWhenVisible(FormStep(s, events[0]), events[1..]);
    }
  }

  function FormRun(s: FormState, events: seq<FormEvent>): FormState
    decreases |events|
  {
    if |events| == 0 then s else FormRun(FormStep(s, events[0]), events[1..])
  }
}

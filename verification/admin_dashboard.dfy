/**
 The admin dashboard's blog table: the transform of the WordPress posts reply,
 deletion after confirmation, the merge applied when an edit is saved, and the
 ten most recent rows it lists. Posts are kept as the plain objects the page
 builds, maps from property names to values.
 */
module AdminDashboard {
  import opened Js
  import Lists

  type Obj = map<string, Json>

  /** `o.key`, undefined when the object lacks it. */
  function Prop(o: Obj, key: string): Json {
    if key in o then o[key] else JUndefined
  }

  /** The table row built from one WordPress post: its id, the rendered title and
      the two statuses. Building it throws when the item or its `title` is null
      or undefined. */
  function Row(item: Json): (r: Eval<Obj>)
    ensures r.Ok? <==> !item.Nullish() && !OptGet(item, "title").Nullish()
    ensures r.Ok? ==> r.value.Keys == {"id", "post_title", "post_status", "comment_status"}
    ensures r.Ok? ==> r.value["post_title"] == OptGet(OptGet(item, "title"), "rendered")
    ensures r.Ok? ==> r.value["id"] == OptGet(item, "id")
    ensures r.Ok? ==> r.value["post_status"] == OptGet(item, "status")
    ensures r.Ok? ==> r.value["comment_status"] == OptGet(item, "comment_status")
  {
    match Get(item, "id")
    case Throws => Throws
    case Ok(id) =>
      match Get(OptGet(item, "title"), "rendered")
      case Throws => Throws
      case Ok(title) =>
        Ok(map["id" := id, "post_title" := title,
                "post_status" := OptGet(item, "status"),
                "comment_status" := OptGet(item, "comment_status")])
  }

  function Rows(items: seq<Json>): (r: Eval<seq<Obj>>)
    ensures r.Ok? <==> forall i :: 0 <= i < |items| ==> Row(items[i]).Ok?
    ensures r.Ok? ==> |r.value| == |items| && forall i :: 0 <= i < |items| ==> r.value[i] == Row(items[i]).value
    decreases |items|
  {
    if |items| == 0 then Ok([])
    else
      match Row(items[0])
      case Throws => Throws
      case Ok(row) =>
        match Rows(items[1..])
        case Throws => Throws
        case Ok(rest) =>
          assert forall i :: 1 <= i < |items| ==> items[i] == items[1..][i - 1];
          Ok([row] + rest)
  }

  /** `data.map(...)`: the WordPress reply must be an array; otherwise, or when one
      post lacks a title, the page shows "Failed to fetch blogs". */
  function Transform(data: Json): (r: Eval<seq<Obj>>)
    ensures !data.JArr? ==> r.Throws?
    ensures data.JArr? ==> r == Rows(data.items)
  {
    if data.JArr? then Rows(data.items) else Throws
  }

  /** `handleDeleteClick`: after a confirmed prompt, drops every row with the id. */
  function Delete(blogs: seq<Obj>, id: Json, confirmed: bool): (r: seq<Obj>)
    ensures !confirmed ==> r == blogs
    ensures confirmed ==> forall k :: 0 <= k < |r| ==> !StrictEq(Prop(r[k], "id"), id)
    ensures Lists.IsSubseq(r, blogs)
    ensures forall b :: b in blogs && !StrictEq(Prop(b, "id"), id) ==> multiset(r)[b] == multiset(blogs)[b]
  {
    if confirmed then Lists.Filter(blogs, (b: Obj) => !StrictEq(Prop(b, "id"), id))
    else
      assert Lists.IsSubseq(blogs, blogs) by {
        Lists.FilterAll(blogs, (b: Obj) => true);
      }
      blogs
  }

  /** `handleEditSave`: every row whose id is the saved row's id becomes
      `{ ...row, ...updated }`; the others stay as they were. */
  function EditSave(blogs: seq<Obj>, updated: Obj): (r: seq<Obj>)
    ensures |r| == |blogs|
    ensures forall i :: 0 <= i < |blogs| && !StrictEq(Prop(blogs[i], "id"), Prop(updated, "id")) ==> r[i] == blogs[i]
    ensures forall i :: 0 <= i < |blogs| && StrictEq(Prop(blogs[i], "id"), Prop(updated, "id")) ==>
      r[i].Keys == blogs[i].Keys + updated.Keys
      && (forall k :: k in updated ==> r[i][k] == updated[k])
      && (forall k :: k in blogs[i] && k !in updated ==> r[i][k] == blogs[i][k])
  {
    seq(|blogs|, i requires 0 <= i < |blogs| =>
      if StrictEq(Prop(blogs[i], "id"), Prop(updated, "id")) then blogs[i] + updated else blogs[i])
  }

  /** Saving the same edit twice is saving it once. */
  lemma EditSaveIdempotent(blogs: seq<Obj>, updated: Obj)
    ensures EditSave(EditSave(blogs, updated), updated) == EditSave(blogs, updated)
  {
    var r := EditSave(blogs, updated);
    forall i | 0 <= i < |blogs|
      ensures StrictEq(Prop(r[i], "id"), Prop(updated, "id")) <==> StrictEq(Prop(blogs[i], "id"), Prop(updated, "id"))
    {
    }
    var r2 := EditSave(r, updated);
    forall i | 0 <= i < |blogs| ensures r2[i] == r[i] {
      if StrictEq(Prop(r[i], "id"), Prop(updated, "id")) {
        assert r[i] + updated == r[i];
      }
    }
  }

  /** `blogs.slice(0, 10)`: the first ten rows, or all of them when fewer. */
  function Recent(blogs: seq<Obj>): (r: seq<Obj>)
    ensures |r| == Min(10, |blogs|)
    ensures r == blogs[..|r|]
  {
    blogs[..Min(10, |blogs|)]
  }
}

/**
 The user dashboard's blog management page, which works on the static post list
 bundled with the site: deletion by position and the open/close state of the
 post form.
 */
module DashboardBlogs {
  import opened Js
  import Lists

  /** The delete on the user dashboard: every post but the one at `index`. */
  function DeleteAt<T>(blogs: seq<T>, index: int): (r: seq<T>)
    ensures 0 <= index < |blogs| ==> |r| == |blogs| - 1 && r == blogs[..index] + blogs[index + 1..]
    ensures !(0 <= index < |blogs|) ==> r == blogs
  {
    Lists.DropIndexSpec(blogs, index);
    Lists.DropIndex(blogs, index)
  }

  /** The survivors of a delete keep their relative order. */
  lemma DeleteAtKeepsOrder<T>(blogs: seq<T>, index: int)
    ensures Lists.IsSubseq(DeleteAt(blogs, index), blogs)
  {
    Lists.DropIndexSpec(blogs, index);
    if 0 <= index < |blogs| {
      SkipOneIsSubseq(blogs, index);
    } else {
      SelfIsSubseq(blogs);
    }
  }

  lemma {:induction false} SelfIsSubseq<T>(xs: seq<T>)
    ensures Lists.IsSubseq(xs, xs)
    decreases |xs|
  {
    if |xs| > 0 {
      SelfIsSubseq(xs[1..]);
    }
  }

  lemma {:induction false} SkipOneIsSubseq<T>(xs: seq<T>, i: nat)
    requires i < |xs|
    ensures Lists.IsSubseq(xs[..i] + xs[i + 1..], xs)
    decreases |xs|
  {
    var a := xs[..i] + xs[i + 1..];
    if i == 0 {
      assert a == xs[1..];
      if |a| > 0 && a[0] == xs[0] {
        SkipOneIsSubseq(xs[1..], 0);
        assert xs[1..][..0] + xs[1..][1..] == a[1..];
      } else {
        SelfIsSubseq(xs[1..]);
      }
    } else {
      assert a[0] == xs[0];
      SkipOneIsSubseq(xs[1..], i - 1);
      assert a[1..] == xs[1..][..i - 1] + xs[1..][i..];
    }
  }

  datatype FormState<T> = FormState(visible: bool, editing: Option<T>)

  datatype FormEvent<T> = CreateNew | EditClick(blog: T) | CloseModal

  /** Create opens the form empty, edit opens it on the chosen post, and closing
      hides it but keeps the post that was being edited. */
  function FormStep<T>(s: FormState<T>, e: FormEvent<T>): (t: FormState<T>)
    ensures t.visible <==> !e.CloseModal?
    ensures e.CreateNew? ==> t.editing.None?
    ensures e.EditClick? ==> t.editing == Some(e.blog)
    ensures e.CloseModal? ==> t.editing == s.editing
  {
    match e
    case CreateNew => FormState(true, None)
    case EditClick(b) => FormState(true, Some(b))
    case CloseModal => s.(visible := false)
  }

  /** The post kept after a close never leaks into a new post: create always
      starts from an empty form, whatever came before. */
  lemma CreateAfterEditStartsEmpty<T>(s: FormState<T>, b: T)
    ensures var t := FormStep(FormStep(FormStep(s, EditClick(b)), CloseModal), CreateNew);
            t.visible && t.editing.None?
  {
  }
}

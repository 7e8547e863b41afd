/**
 Sequence operations shared by the blog-list views: `Array.prototype.filter`,
 `findIndex`, removal of one position, and the order-preserving subsequence
 relation used to state what a filter keeps.
 */
module Lists {
  import opened Js

  /** `a` can be obtained from `b` by deleting elements, keeping the order of the rest. */
  predicate IsSubseq<T(==)>(a: seq<T>, b: seq<T>)
    decreases |b|
  {
    if |a| == 0 then true
    else if |b| == 0 then false
    else if a[0] == b[0] then IsSubseq(a[1..], b[1..])
    else IsSubseq(a, b[1..])
  }

  /** `xs.filter(p)`: keeps exactly the elements satisfying `p`, each as often as
      it occurs, in their original order. */
  function Filter<T(==)>(xs: seq<T>, p: T -> bool): (r: seq<T>)
    ensures |r| <= |xs|
    ensures IsSubseq(r, xs)
    ensures forall k :: 0 <= k < |r| ==> p(r[k])
    ensures forall x :: x in xs && p(x) ==> multiset(r)[x] == multiset(xs)[x]
    ensures forall x :: x in r ==> x in xs
  {
    if |xs| == 0 then []
    else
      var rest := Filter(xs[1..], p);
      assert xs == [xs[0]] + xs[1..];
      if p(xs[0]) then [xs[0]] + rest else rest
  }

  /** A filter whose predicate holds everywhere changes nothing. */
  lemma {:induction false} FilterAll<T>(xs: seq<T>, p: T -> bool)
    requires forall k :: 0 <= k < |xs| ==> p(xs[k])
    ensures Filter(xs, p) == xs
  {
    if |xs| > 0 {
      FilterAll(xs[1..], p);
    }
  }

  /** A filter keeps an element exactly when the predicate holds of it. */
  lemma FilterMembership<T>(xs: seq<T>, p: T -> bool, x: T)
    ensures x in Filter(xs, p) <==> x in xs && p(x)
  {
    if x in xs && p(x) {
      assert x in multiset(xs);
    }
  }

  /** The filter over positions that keeps every element but the one at `index`. */
  function DropIndex<T>(xs: seq<T>, index: int): seq<T>
    decreases |xs|
  {
    if |xs| == 0 then []
    else (if index == 0 then [] else [xs[0]]) + DropIndex(xs[1..], index - 1)
  }

  /** Filtering out one position removes exactly that element when the position
      exists and changes nothing otherwise. */
  lemma {:induction false} DropIndexSpec<T>(xs: seq<T>, index: int)
    ensures 0 <= index < |xs| ==> DropIndex(xs, index) == xs[..index] + xs[index + 1..]
    ensures !(0 <= index < |xs|) ==> DropIndex(xs, index) == xs
    decreases |xs|
  {
    if |xs| > 0 {
      DropIndexSpec(xs[1..], index - 1);
      if index == 0 {
        assert xs[1..] == xs[..0] + xs[1..];
      } else if 0 < index < |xs| {
        assert xs[..index] == [xs[0]] + xs[1..][..index - 1];
        assert xs[index + 1..] == xs[1..][index..];
      } else {
        assert xs == [xs[0]] + xs[1..];
      }
    }
  }

  /** `xs.findIndex(p)`, with None for -1. */
  function FindIndex<T>(xs: seq<T>, p: T -> bool): (r: Option<nat>)
    ensures r.None? <==> forall k :: 0 <= k < |xs| ==> !p(xs[k])
    ensures r.Some? ==> r.value < |xs| && p(xs[r.value]) && forall k :: 0 <= k < r.value ==> !p(xs[k])
  {
    if |xs| == 0 then None
    else if p(xs[0]) then Some(0)
    else match FindIndex(xs[1..], p)
      case None => None
      case Some(i) => Some(i + 1)
  }
}

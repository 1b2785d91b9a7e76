/**
  Mapping a partial function over a list and keeping the results it does
  not reject: the shape of three loops of the two scripts (the CSV lines
  that give a row, the references that give an entry, the Luke blocks that
  match a verse).
 */
module Seqs {
  import opened Wrappers

  /** The results of `f` on the first n elements of `xs` that it does not
      reject, in order. */
  function FilterMap<A, B>(f: A -> Option<B>, xs: seq<A>, n: nat): seq<B>
    requires n <= |xs|
  {
    if n == 0 then []
    else
      var init := FilterMap(f, xs, n - 1);
      match f(xs[n - 1])
      case None => init
      case Some(y) => init + [y]
  }

  /** What one element contributes: its result, or nothing. */
  function Kept<A, B>(f: A -> Option<B>, x: A): seq<B> {
    match f(x)
    case None => []
    case Some(y) => [y]
  }

  /** One more element: its result, if any, goes last. */
  lemma FilterMapStep<A, B>(f: A -> Option<B>, xs: seq<A>, n: nat)
    requires n < |xs|
    ensures f(xs[n]).None? ==> FilterMap(f, xs, n + 1) == FilterMap(f, xs, n)
    ensures f(xs[n]).Some? ==> FilterMap(f, xs, n + 1) == FilterMap(f, xs, n) + [f(xs[n]).value]
  {
  }

  /** One more element in front: its result, if any, goes first. */
  lemma {:induction false} FilterMapCons<A, B>(f: A -> Option<B>, x: A, xs: seq<A>, n: nat)
    requires n <= |xs|
    ensures FilterMap(f, [x] + xs, n + 1) == Kept(f, x) + FilterMap(f, xs, n)
  {
    if n > 0 {
      var ys := [x] + xs;
      FilterMapCons(f, x, xs, n - 1);
      assert ys[n] == xs[n - 1];
      match f(xs[n - 1])
      case None =>
      case Some(y) =>
        assert FilterMap(f, ys, n + 1) == (Kept(f, x) + FilterMap(f, xs, n - 1)) + [y];
        assert FilterMap(f, xs, n) == FilterMap(f, xs, n - 1) + [y];
    }
  }

  /** A filter written head first, as `g` is, is FilterMap. */
  lemma {:induction false} HeadFirstIsFilterMap<A, B>(f: A -> Option<B>, g: seq<A> -> seq<B>, xs: seq<A>)
    requires g([]) == []
    requires forall ys :: ys != [] ==> g(ys) == Kept(f, ys[0]) + g(ys[1..])
    ensures g(xs) == FilterMap(f, xs, |xs|)
    decreases |xs|
  {
    if xs != [] {
      HeadFirstIsFilterMap(f, g, xs[1..]);
      FilterMapCons(f, xs[0], xs[1..], |xs| - 1);
      assert [xs[0]] + xs[1..] == xs;
    }
  }

  /** Every result comes from an element, and every element that `f` does
      not reject gives its result. */
  lemma {:induction false} FilterMapMembers<A, B>(f: A -> Option<B>, xs: seq<A>, n: nat)
    requires n <= |xs|
    ensures forall y :: y in FilterMap(f, xs, n) ==> exists j :: 0 <= j < n && f(xs[j]) == Some(y)
    ensures forall j :: 0 <= j < n && f(xs[j]).Some? ==> f(xs[j]).value in FilterMap(f, xs, n)
  {
    if n > 0 {
      FilterMapMembers(f, xs, n - 1);
    }
  }

  /** idx lists, in increasing order, the elements among the first n of
      `xs` that `f` does not reject, and r[a] is the result of element
      idx[a]. */
  ghost predicate IndexesOf<A, B>(f: A -> Option<B>, xs: seq<A>, n: nat, r: seq<B>, idx: seq<nat>)
    requires n <= |xs|
  {
    |idx| == |r|
    && (forall a :: 0 <= a < |idx| ==> idx[a] < n && f(xs[idx[a]]) == Some(r[a]))
    && (forall a, b :: 0 <= a < b < |idx| ==> idx[a] < idx[b])
    && (forall k :: 0 <= k < n && f(xs[k]).Some? ==> k in idx)
  }

  /** The results keep the order of their elements: result a is the result
      of element idx[a], the indices increase, and every element that `f`
      does not reject has its place among them. */
  lemma {:induction false} FilterMapInOrder<A, B>(f: A -> Option<B>, xs: seq<A>, n: nat) returns (idx: seq<nat>)
    requires n <= |xs|
    ensures |idx| == |FilterMap(f, xs, n)|
    ensures forall a :: 0 <= a < |idx| ==> idx[a] < n && f(xs[idx[a]]) == Some(FilterMap(f, xs, n)[a])
    ensures forall a, b :: 0 <= a < b < |idx| ==> idx[a] < idx[b]
    ensures forall k :: 0 <= k < n && f(xs[k]).Some? ==> k in idx
  {
    idx := InOrder(f, xs, n);
  }

  lemma {:induction false} InOrder<A, B>(f: A -> Option<B>, xs: seq<A>, n: nat) returns (idx: seq<nat>)
    requires n <= |xs|
    ensures IndexesOf(f, xs, n, FilterMap(f, xs, n), idx)
  {
    if n == 0 {
      idx := [];
    } else {
      var init := InOrder(f, xs, n - 1);
      FilterMapStep(f, xs, n - 1);
      match f(xs[n - 1])
      case None =>
        idx := init;
        IndexesSkip(f, xs, n - 1, FilterMap(f, xs, n - 1), init);
      case Some(y) =>
        idx := init + [n - 1];
        IndexesTake(f, xs, n - 1, FilterMap(f, xs, n - 1), init, y);
    }
  }

  /** A rejected element adds no index. */
  lemma IndexesSkip<A, B>(f: A -> Option<B>, xs: seq<A>, n: nat, r: seq<B>, idx: seq<nat>)
    requires n < |xs| && f(xs[n]).None? && IndexesOf(f, xs, n, r, idx)
    ensures IndexesOf(f, xs, n + 1, r, idx)
  {
    forall k | 0 <= k < n + 1 && f(xs[k]).Some? ensures k in idx {
      assert k < n;
    }
  }

  /** A kept element adds its index last. */
  lemma IndexesTake<A, B>(f: A -> Option<B>, xs: seq<A>, n: nat, r: seq<B>, idx: seq<nat>, y: B)
    requires n < |xs| && f(xs[n]) == Some(y) && IndexesOf(f, xs, n, r, idx)
    ensures IndexesOf(f, xs, n + 1, r + [y], idx + [n])
  {
    var idx' := idx + [n];
    var r' := r + [y];
    forall a | 0 <= a < |idx'| ensures idx'[a] < n + 1 && f(xs[idx'[a]]) == Some(r'[a]) {
      if a < |idx| {
        assert idx'[a] == idx[a] && r'[a] == r[a];
      }
    }
    forall k | 0 <= k < n + 1 && f(xs[k]).Some? ensures k in idx' {
      if k < n {
        assert k in idx;
      }
    }
  }
}

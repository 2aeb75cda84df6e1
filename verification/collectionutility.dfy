/** utility/collection_utility.go: membership in a string slice, and the
    qualified items of a collection. */
module CollectionUtility {

  /** InStringSlice scans the slice front to back and stops at the first
      element equal to `src`. */
  function InStringSlice(slice: seq<string>, src: string): (found: bool)
    ensures found <==> src in slice
  {
    if slice == [] then false
    else if slice[0] == src then true
    else InStringSlice(slice[1..], src)
  }

  /** Reference definition of an order-preserving filter. */
  function Filter<T>(xs: seq<T>, keep: T -> bool): seq<T>
  {
    if xs == [] then []
    else (if keep(xs[0]) then [xs[0]] else []) + Filter(xs[1..], keep)
  }

  /** Filtering a concatenation filters each side and keeps them in order. */
  lemma {:induction false} FilterAppend<T>(xs: seq<T>, ys: seq<T>, keep: T -> bool)
    ensures Filter(xs + ys, keep) == Filter(xs, keep) + Filter(ys, keep)
    decreases |xs|
  {
    if xs == [] {
      assert xs + ys == ys;
    } else {
      var head: seq<T> := if keep(xs[0]) then [xs[0]] else [];
      var zs := xs + ys;
      assert zs != [] && zs[0] == xs[0];
      assert zs[1..] == xs[1..] + ys;
      assert Filter(zs, keep) == head + Filter(xs[1..] + ys, keep);
      FilterAppend(xs[1..], ys, keep);
      assert Filter(xs, keep) == head + Filter(xs[1..], keep);
    }
  }

  /** The filtered items are exactly the kept items of the source: each value
      occurs as often as in the source if kept, and not at all otherwise. */
  lemma {:induction false} FilterCounts<T>(xs: seq<T>, keep: T -> bool)
    ensures |Filter(xs, keep)| <= |xs|
    ensures forall x :: multiset(Filter(xs, keep))[x] == if keep(x) then multiset(xs)[x] else 0
    decreases |xs|
  {
    if xs != [] {
      FilterCounts(xs[1..], keep);
      assert xs == [xs[0]] + xs[1..];
    }
  }

  /** Membership in the filtered sequence: in the source, and kept. */
  lemma FilterMembership<T>(xs: seq<T>, keep: T -> bool)
    ensures forall x :: x in Filter(xs, keep) <==> x in xs && keep(x)
  {
    FilterCounts(xs, keep);
    forall x
      ensures x in Filter(xs, keep) <==> x in xs && keep(x)
    {
      assert x in Filter(xs, keep) <==> x in multiset(Filter(xs, keep));
      assert x in xs <==> x in multiset(xs);
    }
  }

  /** GetQualifiedItems walks `src` once, appending every item the qualifier
      accepts and counting them. The variadic parameters of IsQualified are
      fixed inside `isQualified`. */
  method GetQualifiedItems<T>(src: seq<T>, isQualified: T -> bool) returns (count: nat, items: seq<T>)
    ensures count == |items| <= |src|
    ensures items == Filter(src, isQualified)
  {
    count := 0;
    items := [];
    var i := 0;
    while i < |src|
      invariant i <= |src|
      invariant count == |items|
      invariant items == Filter(src[..i], isQualified)
    {
      var item := src[i];
      assert src[..i + 1] == src[..i] + [item];
      FilterAppend(src[..i], [item], isQualified);
      if isQualified(item) {
        count := count + 1;
        items := items + [item];
      }
      i := i + 1;
    }
    assert src[..|src|] == src;
    FilterCounts(src, isQualified);
  }
}

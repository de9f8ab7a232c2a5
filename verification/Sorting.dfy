/** `sort_by` as a stable insertion sort over a strict order. */
module Sorting {

  /** An element goes behind everything that is not after it. */
  function Insert<T>(sorted: seq<T>, x: T, before: (T, T) -> bool): seq<T> {
    if sorted == [] || !before(x, sorted[|sorted| - 1]) then sorted + [x]
    else Insert(sorted[..|sorted| - 1], x, before) + [sorted[|sorted| - 1]]
  }

  function Sort<T>(xs: seq<T>, before: (T, T) -> bool): seq<T> {
    if xs == [] then [] else Insert(Sort(xs[..|xs| - 1], before), xs[|xs| - 1], before)
  }

  ghost predicate IsOrder<T(!new)>(before: (T, T) -> bool) {
    (forall a, b :: before(a, b) ==> !before(b, a)) &&
    (forall a, b, c :: !before(b, a) && !before(c, b) ==> !before(c, a))
  }

  ghost predicate Ascending<T>(xs: seq<T>, before: (T, T) -> bool) {
    forall i, j :: 0 <= i < j < |xs| ==> !before(xs[j], xs[i])
  }

  lemma {:induction false} InsertKeeps<T>(sorted: seq<T>, x: T, before: (T, T) -> bool)
    ensures multiset(Insert(sorted, x, before)) == multiset(sorted) + multiset{x}
  {
    if sorted != [] && before(x, sorted[|sorted| - 1]) {
      var front, last := sorted[..|sorted| - 1], sorted[|sorted| - 1];
      InsertKeeps(front, x, before);
      assert sorted == front + [last];
      assert multiset(Insert(sorted, x, before)) == multiset(Insert(front, x, before)) + multiset{last};
    }
  }

  lemma {:induction false} InsertAscends<T(!new)>(sorted: seq<T>, x: T, before: (T, T) -> bool)
    requires IsOrder(before) && Ascending(sorted, before)
    ensures Ascending(Insert(sorted, x, before), before)
  {
    if sorted != [] {
      var front, last := sorted[..|sorted| - 1], sorted[|sorted| - 1];
      if before(x, last) {
        InsertAscends(front, x, before);
        InsertKeeps(front, x, before);
        NoneAfter(Insert(front, x, before), front, x, last, before);
      } else {
        forall i | 0 <= i < |sorted| ensures !before(x, sorted[i]) {
          assert i < |front| ==> !before(last, sorted[i]);
        }
      }
    }
  }

  lemma NoneAfter<T>(moved: seq<T>, front: seq<T>, x: T, last: T, before: (T, T) -> bool)
    requires multiset(moved) == multiset(front) + multiset{x} && !before(last, x)
    requires forall i :: 0 <= i < |front| ==> !before(last, front[i])
    ensures forall i :: 0 <= i < |moved| ==> !before(last, moved[i])
  {
    forall i | 0 <= i < |moved| ensures !before(last, moved[i]) {
      assert moved[i] in multiset(moved);
      if moved[i] != x {
        assert moved[i] in multiset(front);
      }
    }
  }

  /** Sorting rearranges, into ascending order. */
  lemma {:induction false} Sorts<T(!new)>(xs: seq<T>, before: (T, T) -> bool)
    requires IsOrder(before)
    ensures Ascending(Sort(xs, before), before) && multiset(Sort(xs, before)) == multiset(xs)
    ensures |Sort(xs, before)| == |xs|
  {
    if xs != [] {
      var front, last := xs[..|xs| - 1], xs[|xs| - 1];
      assert xs == front + [last];
      Sorts(front, before);
      InsertAscends(Sort(front, before), last, before);
      InsertKeeps(Sort(front, before), last, before);
    }
    assert |Sort(xs, before)| == |multiset(Sort(xs, before))| == |multiset(xs)|;
  }
}

/** Stable sorting by insertion, for any order. */
module Sorting {

  function Insert<T>(x: T, s: seq<T>, before: (T, T) -> bool): (r: seq<T>)
    ensures |r| == |s| + 1
  {
    if s == [] then [x]
    else if before(x, s[|s| - 1]) then Insert(x, s[..|s| - 1], before) + [s[|s| - 1]]
    else s + [x]
  }

  function Sort<T>(s: seq<T>, before: (T, T) -> bool): (r: seq<T>)
    ensures |r| == |s|
  {
    if s == [] then [] else Insert(s[|s| - 1], Sort(s[..|s| - 1], before), before)
  }

  /** Nothing comes before what stands left of it. */
  ghost predicate InOrder<T>(s: seq<T>, before: (T, T) -> bool) {
    forall i, j :: 0 <= i < j < |s| ==> !before(s[j], s[i])
  }

  /** What a strict order needs for sorting: it is asymmetric, and not being before is transitive. */
  ghost predicate Sortable<T(!new)>(before: (T, T) -> bool) {
    && (forall a, b :: before(a, b) ==> !before(b, a))
    && (forall a, b, c :: !before(b, a) && !before(c, b) ==> !before(c, a))
  }

  lemma {:induction false} InsertContents<T>(x: T, s: seq<T>, before: (T, T) -> bool)
    ensures multiset(Insert(x, s, before)) == multiset(s) + multiset{x}
  {
    if s == [] {
    } else {
      var front, last := s[..|s| - 1], s[|s| - 1];
      assert s == front + [last];
      if before(x, last) { InsertContents(x, front, before); }
    }
  }

  lemma {:induction false} InsertKeepsOrder<T(!new)>(x: T, s: seq<T>, before: (T, T) -> bool)
    requires Sortable(before) && InOrder(s, before)
    ensures InOrder(Insert(x, s, before), before)
  {
    if s == [] {
    } else {
      var front, last := s[..|s| - 1], s[|s| - 1];
      assert s == front + [last];
      if before(x, last) {
        InsertKeepsOrder(x, front, before);
        InsertContents(x, front, before);
        forall y | y in Insert(x, front, before) ensures !before(last, y) {
          assert y in multiset(Insert(x, front, before));
          assert y == x || y in front;
        }
      } else {
        forall i | 0 <= i < |s| ensures !before(x, s[i]) {
          assert i < |s| - 1 ==> !before(last, s[i]);
        }
      }
    }
  }

  /** Sorting permutes. */
  lemma {:induction false} SortContents<T>(s: seq<T>, before: (T, T) -> bool)
    ensures multiset(Sort(s, before)) == multiset(s)
    ensures forall x :: x in Sort(s, before) <==> x in s
  {
    if s != [] {
      var front, last := s[..|s| - 1], s[|s| - 1];
      assert s == front + [last];
      SortContents(front, before);
      InsertContents(last, Sort(front, before), before);
    }
    forall x ensures x in Sort(s, before) <==> x in s {
      assert x in multiset(Sort(s, before)) <==> x in multiset(s);
    }
  }

  /** Sorting orders. */
  lemma {:induction false} SortOrders<T(!new)>(s: seq<T>, before: (T, T) -> bool)
    requires Sortable(before)
    ensures InOrder(Sort(s, before), before)
  {
    if s == [] {
    } else {
      SortOrders(s[..|s| - 1], before);
      InsertKeepsOrder(s[|s| - 1], Sort(s[..|s| - 1], before), before);
    }
  }

  /** A symmetric relation holds between any two elements at different places. */
  ghost predicate Pairwise<T>(s: seq<T>, related: (T, T) -> bool) {
    forall i, j :: 0 <= i < |s| && 0 <= j < |s| && i != j ==> related(s[i], s[j])
  }

  lemma PairwiseAppend<T>(s: seq<T>, x: T, related: (T, T) -> bool)
    ensures Pairwise(s + [x], related)
            <==> Pairwise(s, related) && forall y :: y in s ==> related(x, y) && related(y, x)
  {
    var r := s + [x];
    assert forall i :: 0 <= i < |s| ==> r[i] == s[i];
    assert r[|s|] == x;
  }

  lemma {:induction false} InsertKeepsPairs<T>(x: T, s: seq<T>, before: (T, T) -> bool, related: (T, T) -> bool)
    requires Pairwise(s, related) && forall y :: y in s ==> related(x, y) && related(y, x)
    ensures Pairwise(Insert(x, s, before), related)
  {
    hide Pairwise;
    if s == [] {
      PairwiseAppend([], x, related);
      assert Pairwise([], related) by { NoPairs<T>(related); }
      assert [] + [x] == [x];
    } else {
      var front, last := s[..|s| - 1], s[|s| - 1];
      assert s == front + [last];
      if before(x, last) {
        PairwiseAppend(front, last, related);
        InsertKeepsPairs(x, front, before, related);
        InsertContents(x, front, before);
        forall y | y in Insert(x, front, before) ensures related(last, y) && related(y, last) {
          assert y in multiset(Insert(x, front, before));
        }
        PairwiseAppend(Insert(x, front, before), last, related);
      } else {
        PairwiseAppend(s, x, related);
      }
    }
  }

  lemma NoPairs<T>(related: (T, T) -> bool)
    ensures Pairwise([], related)
  {
  }

  /** Sorting keeps such a relation. */
  lemma {:induction false} SortKeepsPairs<T>(s: seq<T>, before: (T, T) -> bool, related: (T, T) -> bool)
    requires Pairwise(s, related)
    ensures Pairwise(Sort(s, before), related)
  {
    hide Pairwise;
    if s == [] {
      NoPairs<T>(related);
    } else {
      var front, last := s[..|s| - 1], s[|s| - 1];
      assert s == front + [last];
      PairwiseAppend(front, last, related);
      SortKeepsPairs(front, before, related);
      SortContents(front, before);
      forall y | y in Sort(front, before) ensures related(last, y) && related(y, last) {
        assert y in multiset(Sort(front, before));
        assert y in multiset(front);
      }
      InsertKeepsPairs(last, Sort(front, before), before, related);
    }
  }
}

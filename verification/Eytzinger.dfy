/** Names in octet order, sorting by name, and the Eytzinger layout: a binary search tree stored
    breadth-first, the children of index i at 2i + 1 and 2i + 2. The crate that provides the layout is
    not part of this model; only the layout is. */
module Eytzinger {
  import opened Bytes
  import opened Paths
  import Sorting

  /** Lexicographic order of octets. */
  predicate Less(a: Name, b: Name) {
    if b == [] then false
    else if a == [] then true
    else a[0] < b[0] || (a[0] == b[0] && Less(a[1..], b[1..]))
  }

  lemma {:induction false} LessIsStrict(a: Name)
    ensures !Less(a, a)
  {
    if a == [] {
    } else {
      LessIsStrict(a[1..]);
    }
  }

  lemma {:induction false} LessIsTotal(a: Name, b: Name)
    ensures Less(a, b) || a == b || Less(b, a)
  {
    if a != [] && b != [] && a[0] == b[0] {
      LessIsTotal(a[1..], b[1..]);
      assert a == [a[0]] + a[1..] && b == [b[0]] + b[1..];
    }
  }

  lemma {:induction false} LessIsTransitive(a: Name, b: Name, c: Name)
    requires Less(a, b) && Less(b, c)
    ensures Less(a, c)
  {
    if a != [] && a[0] == b[0] == c[0] { LessIsTransitive(a[1..], b[1..], c[1..]); }
  }

  /** A name comes before the ones it is a proper prefix of, and before those with a larger octet where they
      first differ from it. */
  lemma {:induction false} LessIff(a: Name, b: Name)
    ensures Less(a, b) <==> (a <= b && |a| < |b|) || exists n :: DiffersAt(a, b, n) && a[n] < b[n]
  {
    if a == [] || b == [] {
    } else {
      LessIff(a[1..], b[1..]);
      PrefixTail(a, b);
      if a[0] == b[0] {
        if n :| DiffersAt(a[1..], b[1..], n) && a[1..][n] < b[1..][n] { LaterDiffers(a, b, n); }
        if n :| DiffersAt(a, b, n) && a[n] < b[n] { LaterDiffers(a, b, n - 1); }
      } else {
        assert DiffersAt(a, b, 0);
        assert forall n :: DiffersAt(a, b, n) ==> n == 0;
      }
    }
  }

  predicate DiffersAt(a: Name, b: Name, n: int) {
    0 <= n < |a| && n < |b| && a[n] != b[n] && forall i :: 0 <= i < n ==> a[i] == b[i]
  }

  lemma LaterDiffers(a: Name, b: Name, n: int)
    requires a != [] && b != [] && a[0] == b[0]
    ensures DiffersAt(a, b, n + 1) <==> n >= 0 && DiffersAt(a[1..], b[1..], n)
  {
    if n >= 0 && DiffersAt(a[1..], b[1..], n) {
      forall i | 0 <= i < n + 1 ensures a[i] == b[i] { if i > 0 { assert a[1..][i - 1] == b[1..][i - 1]; } }
    }
  }

  lemma PrefixTail(a: Name, b: Name)
    requires a != [] && b != []
    ensures a <= b <==> a[0] == b[0] && a[1..] <= b[1..]
  {
    if a[0] == b[0] && a[1..] <= b[1..] {
      assert a == [a[0]] + a[1..] && b[..|a|] == [b[0]] + b[1..][..|a| - 1];
    }
  }

  // ---- sorting ----

  predicate StrictlySorted<T>(s: seq<T>, key: T -> Name) {
    forall i, j :: 0 <= i < j < |s| ==> Less(key(s[i]), key(s[j]))
  }

  function ByKey<T>(key: T -> Name): (T, T) -> bool {
    (x, y) => Less(key(x), key(y))
  }

  /** `sort_unstable_by_key`. */
  function Sort<T>(s: seq<T>, key: T -> Name): (r: seq<T>)
    ensures |r| == |s|
  {
    Sorting.Sort(s, ByKey(key))
  }

  lemma NamesAreSortable<T(!new)>(key: T -> Name)
    ensures Sorting.Sortable(ByKey(key))
  {
    forall x, y | Less(key(x), key(y)) ensures !Less(key(y), key(x)) {
      LessIsStrict(key(x));
      if Less(key(y), key(x)) { LessIsTransitive(key(x), key(y), key(x)); }
    }
    forall x, y, z | !Less(key(y), key(x)) && !Less(key(z), key(y)) ensures !Less(key(z), key(x)) {
      LessIsTotal(key(x), key(y));
      LessIsTotal(key(y), key(z));
      LessIsStrict(key(x));
      if Less(key(z), key(x)) {
        if Less(key(x), key(y)) { LessIsTransitive(key(z), key(x), key(y)); }
      }
    }
  }

  predicate DistinctKeys<T>(s: seq<T>, key: T -> Name) {
    forall i, j :: 0 <= i < j < |s| ==> key(s[i]) != key(s[j])
  }

  /** Sorting permutes, and orders strictly when no name repeats. */
  lemma SortIsRight<T(!new)>(s: seq<T>, key: T -> Name)
    ensures multiset(Sort(s, key)) == multiset(s)
    ensures DistinctKeys(s, key) ==> StrictlySorted(Sort(s, key), key)
  {
    var sorted, differ := Sort(s, key), (x: T, y: T) => key(x) != key(y);
    Sorting.SortContents(s, ByKey(key));
    NamesAreSortable(key);
    Sorting.SortOrders(s, ByKey(key));
    if DistinctKeys(s, key) {
      assert Sorting.Pairwise(s, differ);
      Sorting.SortKeepsPairs(s, ByKey(key), differ);
      forall i, j | 0 <= i < j < |sorted| ensures Less(key(sorted[i]), key(sorted[j])) {
        LessIsTotal(key(sorted[i]), key(sorted[j]));
        assert differ(sorted[i], sorted[j]);
        assert !ByKey(key)(sorted[j], sorted[i]);
      }
    }
  }

  // ---- layout ----

  /** The indices of the subtree at `i`, left to right. */
  function InOrder(i: nat, n: nat): (r: seq<nat>)
    ensures forall k :: 0 <= k < |r| ==> i <= r[k] < n
    decreases Max(0, n - i)
  {
    if i >= n then [] else InOrder(2 * i + 1, n) + [i] + InOrder(2 * i + 2, n)
  }

  /** `i` is `j` or an ancestor of `j`. */
  predicate Above(i: nat, j: nat) {
    i == j || (i < j && Above(i, (j - 1) / 2))
  }

  lemma {:induction false} ChildAbove(i: nat, c: nat, j: nat)
    requires (c == 2 * i + 1 || c == 2 * i + 2) && Above(c, j)
    ensures Above(i, j)
    decreases j
  {
    if c != j { ChildAbove(i, c, (j - 1) / 2); }
  }

  lemma {:induction false} SubtreesApart(i: nat, j: nat)
    requires Above(2 * i + 1, j)
    ensures !Above(2 * i + 2, j)
    decreases j
  {
    if j != 2 * i + 1 && j != 2 * i + 2 { SubtreesApart(i, (j - 1) / 2); }
  }

  lemma {:induction false} AboveSplits(i: nat, j: nat)
    requires Above(i, j) && i != j
    ensures Above(2 * i + 1, j) || Above(2 * i + 2, j)
    decreases j
  {
    var parent := (j - 1) / 2;
    if parent != i { AboveSplits(i, parent); }
  }

  lemma {:induction false} RootAbove(j: nat)
    ensures Above(0, j)
    decreases j
  {
    if j == 0 {
    } else {
      RootAbove((j - 1) / 2);
    }
  }

  predicate NoRepeats(s: seq<nat>) {
    forall a, b :: 0 <= a < b < |s| ==> s[a] != s[b]
  }

  /** Every index of the subtree occurs exactly once. */
  lemma {:induction false} InOrderIsSubtree(i: nat, n: nat)
    ensures forall j: nat :: j in InOrder(i, n) <==> j < n && Above(i, j)
    ensures NoRepeats(InOrder(i, n))
    decreases Max(0, n - i)
  {
    if i < n {
      var left, right := InOrder(2 * i + 1, n), InOrder(2 * i + 2, n);
      InOrderIsSubtree(2 * i + 1, n);
      InOrderIsSubtree(2 * i + 2, n);
      forall j: nat ensures j in InOrder(i, n) <==> j < n && Above(i, j) {
        if j in left { ChildAbove(i, 2 * i + 1, j); }
        if j in right { ChildAbove(i, 2 * i + 2, j); }
        if j < n && Above(i, j) && i != j { AboveSplits(i, j); }
      }
      forall j | j in left ensures j !in right { SubtreesApart(i, j); }
      ApartNoRepeats(left, i, right);
    } else {
      assert forall j: nat :: j < n ==> !Above(i, j);
    }
  }

  lemma ApartNoRepeats(left: seq<nat>, mid: nat, right: seq<nat>)
    requires NoRepeats(left) && NoRepeats(right) && mid !in left && mid !in right
    requires forall j :: j in left ==> j !in right
    ensures NoRepeats(left + [mid] + right)
  {
    var s := left + [mid] + right;
    forall a, b | 0 <= a < b < |s| ensures s[a] != s[b] {
      assert a < |left| ==> s[a] in left;
      assert b > |left| ==> s[b] in right;
    }
  }

  lemma {:induction false} InOrderLength(n: nat)
    ensures |InOrder(0, n)| == n
  {
    InOrderIsSubtree(0, n);
    forall j: nat | j < n ensures j in InOrder(0, n) { RootAbove(j); }
    CountIndices(InOrder(0, n), n);
  }

  /** A list without repeats of exactly the numbers below `n` has length `n`. */
  lemma {:induction false} CountIndices(s: seq<nat>, n: nat)
    requires NoRepeats(s) && forall j: nat :: j in s <==> j < n
    ensures |s| == n
  {
    if n > 0 {
      assert n - 1 in s;
      var k :| 0 <= k < |s| && s[k] == n - 1;
      var t := s[..k] + s[k + 1..];
      assert forall j :: j in t ==> j in s;
      forall j: nat | j < n - 1 ensures j in t {
        assert j in s;
        var m :| 0 <= m < |s| && s[m] == j;
        assert if m < k then t[m] == j else t[m - 1] == j;
      }
      CountIndices(t, n - 1);
    } else {
      FirstIn(s);
    }
  }

  lemma FirstIn(s: seq<nat>)
    ensures s == [] || s[0] in s
  {
  }

  function IndexOf(s: seq<nat>, j: nat): (k: nat)
    requires j in s
    ensures k < |s| && s[k] == j
  {
    if s[0] == j then 0 else 1 + IndexOf(s[1..], j)
  }

  /** Place of index `i` in the sorted order. */
  function Rank(i: nat, n: nat): (k: nat)
    requires i < n
    ensures k < n && k < |InOrder(0, n)| && InOrder(0, n)[k] == i
  {
    InOrderIsSubtree(0, n);
    RootAbove(i);
    InOrderLength(n);
    IndexOf(InOrder(0, n), i)
  }

  /** `eytzingerize`: the sorted sequence laid out as a search tree. */
  function Eytzingerize<T>(s: seq<T>): (e: seq<T>)
    ensures |e| == |s|
  {
    seq(|s|, i requires 0 <= i < |s| => s[Rank(i, |s|)])
  }

  /** The layout read left to right is the sorted sequence: the two are permutations of each other. */
  lemma LayoutReadsInOrder<T>(s: seq<T>)
    ensures |InOrder(0, |s|)| == |s|
    ensures forall k :: 0 <= k < |s| ==> Eytzingerize(s)[InOrder(0, |s|)[k]] == s[k]
  {
    var order := InOrder(0, |s|);
    InOrderIsSubtree(0, |s|);
    InOrderLength(|s|);
    forall k | 0 <= k < |s| ensures Eytzingerize(s)[order[k]] == s[k] {
      assert order[k] in order;
      var r := Rank(order[k], |s|);
      assert order[r] == order[k];
    }
  }

  lemma LayoutContents<T>(s: seq<T>)
    ensures forall x :: x in Eytzingerize(s) <==> x in s
  {
    LayoutReadsInOrder(s);
    forall x | x in s ensures x in Eytzingerize(s) {
      var k :| 0 <= k < |s| && s[k] == x;
      assert InOrder(0, |s|)[k] in InOrder(0, |s|);
      assert Eytzingerize(s)[InOrder(0, |s|)[k]] == x;
    }
  }

  predicate SortedAlong(keys: seq<Name>, order: seq<nat>) {
    && (forall a :: 0 <= a < |order| ==> order[a] < |keys|)
    && (forall a, b :: 0 <= a < b < |order| ==> Less(keys[order[a]], keys[order[b]]))
  }

  /** Names laid out as a search tree. */
  predicate IsLayout(keys: seq<Name>) {
    SortedAlong(keys, InOrder(0, |keys|))
  }

  /** `eytzinger_search_by_key`, from index `i`. */
  function SearchFrom(keys: seq<Name>, i: nat, target: Name): Option<nat>
    decreases Max(0, |keys| - i)
  {
    if i >= |keys| then None
    else if keys[i] == target then Some(i)
    else SearchFrom(keys, if Less(target, keys[i]) then 2 * i + 1 else 2 * i + 2, target)
  }

  function Search(keys: seq<Name>, target: Name): Option<nat> {
    SearchFrom(keys, 0, target)
  }

  lemma SortedAlongParts(keys: seq<Name>, left: seq<nat>, i: nat, right: seq<nat>)
    requires SortedAlong(keys, left + [i] + right)
    ensures SortedAlong(keys, left) && SortedAlong(keys, right) && i < |keys|
    ensures forall j :: j in left ==> j < |keys| && Less(keys[j], keys[i])
    ensures forall j :: j in right ==> j < |keys| && Less(keys[i], keys[j])
  {
    var s := left + [i] + right;
    assert s[|left|] == i;
    assert forall a :: 0 <= a < |left| ==> s[a] == left[a];
    assert forall a :: 0 <= a < |right| ==> s[|left| + 1 + a] == right[a];
  }

  lemma {:induction false} SearchFromIsRight(keys: seq<Name>, i: nat, target: Name)
    requires SortedAlong(keys, InOrder(i, |keys|))
    ensures match SearchFrom(keys, i, target)
            case Some(j) => j < |keys| && keys[j] == target
            case None => forall j :: j in InOrder(i, |keys|) ==> keys[j] != target
    decreases Max(0, |keys| - i)
  {
    if i < |keys| && keys[i] != target {
      var left, right := InOrder(2 * i + 1, |keys|), InOrder(2 * i + 2, |keys|);
      SortedAlongParts(keys, left, i, right);
      LessIsTotal(target, keys[i]);
      forall j | j in InOrder(i, |keys|) && keys[j] == target
        ensures j in if Less(target, keys[i]) then left else right
      {
        LessIsStrict(target);
        if j in left { }
        if j in right && Less(target, keys[i]) { LessIsTransitive(keys[i], target, keys[i]); LessIsStrict(keys[i]); }
        if j in left && !Less(target, keys[i]) { assert false; }
      }
      SearchFromIsRight(keys, if Less(target, keys[i]) then 2 * i + 1 else 2 * i + 2, target);
    }
  }

  /** On a layout, the search finds a name exactly when it is there. */
  lemma SearchIsRight(keys: seq<Name>, target: Name)
    requires IsLayout(keys)
    ensures match Search(keys, target)
            case Some(j) => j < |keys| && keys[j] == target
            case None => target !in keys
  {
    SearchFromIsRight(keys, 0, target);
    InOrderIsSubtree(0, |keys|);
    forall j: nat | j < |keys| ensures j in InOrder(0, |keys|) { RootAbove(j); }
  }

  /** Sorted names, laid out, are a layout. */
  lemma SortedGivesLayout(s: seq<Name>)
    requires forall i, j :: 0 <= i < j < |s| ==> Less(s[i], s[j])
    ensures IsLayout(Eytzingerize(s))
  {
    LayoutReadsInOrder(s);
  }

  /** A layout holds no name twice. */
  lemma LayoutHasNoRepeats(keys: seq<Name>, i: nat, j: nat)
    requires IsLayout(keys) && i < |keys| && j < |keys| && keys[i] == keys[j]
    ensures i == j
  {
    var order := InOrder(0, |keys|);
    var a, b := Rank(i, |keys|), Rank(j, |keys|);
    LessIsStrict(keys[i]);
    PlacedInOrder(keys, a, b);
    PlacedInOrder(keys, b, a);
  }

  lemma PlacedInOrder(keys: seq<Name>, a: nat, b: nat)
    requires IsLayout(keys) && a < |InOrder(0, |keys|)| && b < |InOrder(0, |keys|)|
    ensures var order := InOrder(0, |keys|);
            order[a] < |keys| && order[b] < |keys| && (a < b ==> Less(keys[order[a]], keys[order[b]]))
  {
    InOrderIsSubtree(0, |keys|);
    assert InOrder(0, |keys|)[a] in InOrder(0, |keys|) && InOrder(0, |keys|)[b] in InOrder(0, |keys|);
  }
}

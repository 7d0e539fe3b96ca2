/** When the grouping of a reduction makes no difference at all: not to one path, nor to one index. */
module Regrouping {
  import opened Paths
  import opened Trie
  import opened Merge
  import opened Object

  /** The objects merged one after the other, from the left. */
  function Chain<T>(objs: seq<RofsObject<T>>): Reduction<T> {
    if objs == [] then Identity else Both(Chain(objs[..|objs| - 1]), One(objs[|objs| - 1]))
  }

  function Fold<T>(objs: seq<RofsObject<T>>): RofsObject<T> {
    Chain(objs).Result()
  }

  /** Whatever path of an object an earlier object blocks, what was kept of the earlier ones blocks as well: no
      path is kept out only by files that were kept out themselves. */
  ghost predicate NothingShadowed<T>(objs: seq<RofsObject<T>>) {
    forall k, i, p | 0 <= i < k < |objs| && HasFile(objs[k].Inner(), p) && Blocked(objs[i].Inner(), p) ::
      Blocked(Fold(objs[..k]).Inner(), p)
  }

  lemma {:induction false} ChainObjects<T>(objs: seq<RofsObject<T>>)
    ensures Chain(objs).Objects() == objs
  {
    if objs == [] {
    } else {
      ChainObjects(objs[..|objs| - 1]);
      assert objs == objs[..|objs| - 1] + [objs[|objs| - 1]];
    }
  }

  lemma FoldWellformed<T>(objs: seq<RofsObject<T>>)
    requires AllWellformed(objs)
    ensures Wellformed(Fold(objs))
  {
    ChainObjects(objs);
    ReductionWellformed(Chain(objs));
  }

  lemma FoldOneMore<T>(objs: seq<RofsObject<T>>, o: RofsObject<T>)
    ensures Fold(objs + [o]) == MergeObjects(Fold(objs), o)
  {
    var all := objs + [o];
    assert all[..|all| - 1] == objs && all[|all| - 1] == o;
    var c: Reduction<T> := Both(Chain(objs), One(o));
    assert Chain(all) == c && One(o).Result() == o;
    assert c.Result() == MergeObjects(Chain(objs).Result(), One(o).Result());
  }

  lemma WellformedPrefix<T>(objs: seq<RofsObject<T>>, k: nat)
    requires AllWellformed(objs) && k <= |objs|
    ensures AllWellformed(objs[..k]) && AllWellformed(objs[k..]) && Wellformed(Fold(objs[..k]))
            && Wellformed(Fold(objs[k..]))
  {
    hide Wellformed;
    FoldWellformed(objs[..k]);
    FoldWellformed(objs[k..]);
  }

  // ---- which files there are ----

  /** What a merge holds, and what it keeps. */
  lemma MergedHolds<T>(a: RofsObject<T>, b: RofsObject<T>, p: Path)
    requires Wellformed(a) && Wellformed(b)
    ensures Wellformed(MergeObjects(a, b))
    ensures HasFile(MergeObjects(a, b).Inner(), p)
            <==> HasFile(a.Inner(), p) || (HasFile(b.Inner(), p) && !Blocked(a.Inner(), p))
  {
    MergedWellformed(a, b);
    if p == [] {
      RootIsNoFile(a.Inner());
      RootIsNoFile(b.Inner());
      RootIsNoFile(MergeObjects(a, b).Inner());
    } else {
      MergedResolves(a, b, p);
    }
  }

  /** A file blocks its own path. */
  lemma FileBlocks<T>(a: RofsObject<T>, p: Path, q: Path)
    requires Wellformed(a) && HasFile(a.Inner(), q) && Conflict(p, q) && p != []
    ensures Blocked(a.Inner(), p)
  {
    BlockedIff(a.Inner(), p);
  }

  lemma BlockedByFile<T>(a: RofsObject<T>, p: Path) returns (q: Path)
    requires Wellformed(a) && Blocked(a.Inner(), p) && p != []
    ensures HasFile(a.Inner(), q) && Conflict(p, q)
  {
    BlockedIff(a.Inner(), p);
    q :| HasFile(a.Inner(), q) && Conflict(p, q);
  }

  /** More files block more. */
  lemma BlockedMore<T>(a: RofsObject<T>, b: RofsObject<T>, p: Path)
    requires Wellformed(a) && Wellformed(b) && p != []
    requires forall q :: HasFile(a.Inner(), q) ==> HasFile(b.Inner(), q)
    ensures Blocked(a.Inner(), p) ==> Blocked(b.Inner(), p)
  {
    hide Wellformed, Blocked, HasFile, Conflict;
    if Blocked(a.Inner(), p) {
      var q := BlockedByFile(a, p);
      FileBlocks(b, p, q);
    }
  }

  lemma {:induction false} ResultIsHeld<T>(r: Reduction<T>, p: Path)
    requires AllWellformed(r.Objects()) && HasFile(r.Result().Inner(), p)
    ensures HeldBy(r.Objects(), p)
  {
    match r
    case Identity => NothingInEmpty(p);
    case One(obj) => HeldByOne(obj, p);
    case Both(left, right) =>
      WellformedConcat(left.Objects(), right.Objects());
      ReductionWellformed(left);
      ReductionWellformed(right);
      MergedHolds(left.Result(), right.Result(), p);
      HeldByConcat(left.Objects(), right.Objects(), p);
      if HasFile(left.Result().Inner(), p) { ResultIsHeld(left, p); } else { ResultIsHeld(right, p); }
  }

  /** What a prefix keeps, the whole keeps. */
  lemma {:induction false} PrefixKept<T>(objs: seq<RofsObject<T>>, k: nat, p: Path)
    requires AllWellformed(objs) && k <= |objs|
    ensures HasFile(Fold(objs[..k]).Inner(), p) ==> HasFile(Fold(objs).Inner(), p)
    decreases |objs|
  {
    hide Wellformed, HasFile, Fold;
    if k == |objs| {
      assert objs[..k] == objs;
    } else {
      var front, last := objs[..|objs| - 1], objs[|objs| - 1];
      assert objs == front + [last] && front[..k] == objs[..k];
      WellformedPrefix(objs, |objs| - 1);
      PrefixKept(front, k, p);
      FoldOneMore(front, last);
      MergedHolds(Fold(front), last, p);
    }
  }

  /** A file of object `k` that nothing kept before blocks is kept. */
  lemma KeptAt<T>(objs: seq<RofsObject<T>>, k: nat, p: Path)
    requires AllWellformed(objs) && k < |objs|
    requires HasFile(objs[k].Inner(), p) && !Blocked(Fold(objs[..k]).Inner(), p)
    ensures HasFile(Fold(objs).Inner(), p)
  {
    hide Wellformed, HasFile, Fold, Blocked;
    assert objs[..k + 1] == objs[..k] + [objs[k]];
    WellformedPrefix(objs, k);
    FoldOneMore(objs[..k], objs[k]);
    MergedHolds(Fold(objs[..k]), objs[k], p);
    PrefixKept(objs, k + 1, p);
  }

  /** Where a kept file comes from. */
  lemma {:induction false} KeptFrom<T>(objs: seq<RofsObject<T>>, p: Path) returns (k: nat)
    requires AllWellformed(objs) && HasFile(Fold(objs).Inner(), p)
    ensures k < |objs| && HasFile(objs[k].Inner(), p) && !Blocked(Fold(objs[..k]).Inner(), p)
    decreases |objs|
  {
    hide Wellformed, HasFile, Blocked, Fold;
    assert objs != [] by { NothingFolded<T>(p); }
    var front, last := objs[..|objs| - 1], objs[|objs| - 1];
    assert objs == front + [last];
    WellformedPrefix(objs, |objs| - 1);
    FoldOneMore(front, last);
    MergedHolds(Fold(front), last, p);
    if HasFile(Fold(front).Inner(), p) {
      k := KeptFrom(front, p);
      assert front[..k] == objs[..k];
    } else {
      k := |front|;
    }
  }

  lemma NothingFolded<T>(p: Path)
    ensures !HasFile(Fold<T>([]).Inner(), p)
  {
    NothingInEmpty(p);
  }

  lemma FoldOfOne<T>(o: RofsObject<T>)
    ensures Fold([o]) == o
  {
    assert [] + [o] == [o];
    FoldOneMore([], o);
    assert Fold<T>([]).root == map[];
  }

  // ---- enough ----

  lemma ShadowedPrefix<T>(objs: seq<RofsObject<T>>, m: nat)
    requires NothingShadowed(objs) && m <= |objs|
    ensures NothingShadowed(objs[..m])
  {
    hide HasFile, Blocked, Fold;
    forall k, i, p | 0 <= i < k < m && HasFile(objs[..m][k].Inner(), p) && Blocked(objs[..m][i].Inner(), p)
      ensures Blocked(Fold(objs[..m][..k]).Inner(), p)
    {
      assert objs[..m][..k] == objs[..k];
    }
  }

  /** A file on the right that is free behind the left and the middle is blocked by nothing in the middle. */
  lemma NotBlockedBetween<T>(xs: seq<RofsObject<T>>, m: Reduction<T>, n: Reduction<T>, p: Path)
    requires AllWellformed(xs) && AllWellformed(m.Objects()) && AllWellformed(n.Objects())
    requires AllWellformed(xs + m.Objects() + n.Objects()) && NothingShadowed(xs + m.Objects() + n.Objects())
    requires Wellformed(m.Result())
    requires HasFile(Fold(xs + m.Objects() + n.Objects()).Inner(), p)
    requires p != [] && !HasFile(Fold(xs + m.Objects()).Inner(), p)
    ensures !Blocked(m.Result().Inner(), p)
  {
    hide Wellformed, HasFile, Blocked, Fold, Conflict;
    var ms := m.Objects();
    var front, all := xs + ms, xs + ms + n.Objects();
    var k := KeptFrom(all, p);
    if k < |front| {
      assert all[..k] == front[..k] && all[k] == front[k];
      WellformedConcat(xs + ms, n.Objects());
      KeptAt(front, k, p);
    }
    if Blocked(m.Result().Inner(), p) {
      var j := BlockedByHeld(m, p);
      ShadowedAt(all, k, |xs| + j, p);
    }
  }

  /** What a reduction's result blocks, one of its objects blocks. */
  lemma BlockedByHeld<T>(m: Reduction<T>, p: Path) returns (j: nat)
    requires AllWellformed(m.Objects()) && p != [] && Blocked(m.Result().Inner(), p)
    ensures j < |m.Objects()| && Blocked(m.Objects()[j].Inner(), p)
  {
    hide Wellformed, HasFile, Blocked, Conflict;
    ReductionWellformed(m);
    var q := BlockedByFile(m.Result(), p);
    ResultIsHeld(m, q);
    j :| 0 <= j < |m.Objects()| && HasFile(m.Objects()[j].Inner(), q);
    FileBlocks(m.Objects()[j], p, q);
  }

  lemma ShadowedAt<T>(objs: seq<RofsObject<T>>, k: nat, i: nat, p: Path)
    requires NothingShadowed(objs) && i < k < |objs|
    requires HasFile(objs[k].Inner(), p) && Blocked(objs[i].Inner(), p)
    ensures Blocked(Fold(objs[..k]).Inner(), p)
  {
  }

  /** Merging a reduction behind what was kept of the objects before it is merging its objects one by one. */
  lemma {:induction false} BehindFold<T>(xs: seq<RofsObject<T>>, r: Reduction<T>)
    requires AllWellformed(xs + r.Objects()) && NothingShadowed(xs + r.Objects())
    ensures MergeObjects(Fold(xs), r.Result()) == Fold(xs + r.Objects())
    decreases r
  {
    hide Wellformed, NothingShadowed, Fold, MergeObjects;
    WellformedConcat(xs, r.Objects());
    FoldWellformed(xs);
    match r
    case Identity =>
      assert xs + [] == xs;
      MergeObjectsAssociativeIff(Fold(xs), Fold(xs), Fold(xs));
    case One(obj) => FoldOneMore(xs, obj);
    case Both(m, n) => BehindBoth(xs, m, n);
  }

  lemma {:induction false} BehindBoth<T>(xs: seq<RofsObject<T>>, m: Reduction<T>, n: Reduction<T>)
    requires AllWellformed(xs) && AllWellformed(xs + (m.Objects() + n.Objects()))
    requires NothingShadowed(xs + (m.Objects() + n.Objects())) && Wellformed(Fold(xs))
    ensures MergeObjects(Fold(xs), MergeObjects(m.Result(), n.Result())) == Fold(xs + (m.Objects() + n.Objects()))
    decreases Both(m, n), 0
  {
    hide Wellformed, NothingShadowed, Fold, MergeObjects, NoShadowedBlocks;
    var ms, ns := m.Objects(), n.Objects();
    var all := xs + ms + ns;
    assert xs + (ms + ns) == all;
    WellformedConcat(xs, ms + ns);
    WellformedConcat(ms, ns);
    WellformedConcat(xs + ms, ns);
    assert all[..|xs + ms|] == xs + ms;
    ShadowedPrefix(all, |xs + ms|);
    ReductionWellformed(m);
    ReductionWellformed(n);
    BehindFold(xs, m);
    BehindFold(xs + ms, n);
    NoShadowBetween(xs, m, n);
    MergeObjectsAssociativeIff(Fold(xs), m.Result(), n.Result());
  }

  lemma NoShadowBetween<T>(xs: seq<RofsObject<T>>, m: Reduction<T>, n: Reduction<T>)
    requires AllWellformed(xs) && AllWellformed(m.Objects()) && AllWellformed(n.Objects())
    requires AllWellformed(xs + m.Objects() + n.Objects()) && NothingShadowed(xs + m.Objects() + n.Objects())
    requires Wellformed(Fold(xs)) && Wellformed(m.Result()) && Wellformed(n.Result())
    requires MergeObjects(Fold(xs), m.Result()) == Fold(xs + m.Objects())
    requires MergeObjects(Fold(xs + m.Objects()), n.Result()) == Fold(xs + m.Objects() + n.Objects())
    ensures NoShadowedBlocks(Fold(xs).Inner(), m.Result().Inner(), n.Result().Inner())
  {
    hide Wellformed, NothingShadowed, Fold, MergeObjects, HasFile, Blocked, Conflict;
    var a, mr, nr := Fold(xs), m.Result(), n.Result();
    forall p | HasFile(nr.Inner(), p) && !Blocked(a.Inner(), p) && Blocked(mr.Inner(), p)
      ensures exists q :: HasFile(mr.Inner(), q) && !Blocked(a.Inner(), q) && Conflict(p, q)
    {
      BlockedThrough(xs, m, n, p);
    }
  }

  lemma BlockedThrough<T>(xs: seq<RofsObject<T>>, m: Reduction<T>, n: Reduction<T>, p: Path)
    requires AllWellformed(xs) && AllWellformed(m.Objects()) && AllWellformed(n.Objects())
    requires AllWellformed(xs + m.Objects() + n.Objects()) && NothingShadowed(xs + m.Objects() + n.Objects())
    requires Wellformed(Fold(xs)) && Wellformed(m.Result()) && Wellformed(n.Result())
    requires MergeObjects(Fold(xs), m.Result()) == Fold(xs + m.Objects())
    requires MergeObjects(Fold(xs + m.Objects()), n.Result()) == Fold(xs + m.Objects() + n.Objects())
    requires HasFile(n.Result().Inner(), p) && !Blocked(Fold(xs).Inner(), p) && Blocked(m.Result().Inner(), p)
    ensures exists q :: HasFile(m.Result().Inner(), q) && !Blocked(Fold(xs).Inner(), q) && Conflict(p, q)
  {
    hide Wellformed, NothingShadowed, Fold, MergeObjects, HasFile, Blocked, Conflict;
    var a, mr, nr := Fold(xs), m.Result(), n.Result();
    HasNoRootFile(nr.Inner(), p);
    MergedHolds(a, mr, p);
    MergedHolds(Fold(xs + m.Objects()), nr, p);
    if Blocked(Fold(xs + m.Objects()).Inner(), p) {
      var q := BlockedByFile(Fold(xs + m.Objects()), p);
      MergedHolds(a, mr, q);
      if HasFile(a.Inner(), q) { FileBlocks(a, p, q); }
    } else {
      if HasFile(Fold(xs + m.Objects()).Inner(), p) { OwnPath(p); FileBlocks(Fold(xs + m.Objects()), p, p); }
      NotBlockedBetween(xs, m, n, p);
    }
  }

  lemma OwnPath(p: Path)
    ensures Conflict(p, p)
  {
  }

  /** Under the condition every grouping gives what merging from the left gives. */
  lemma AllGroupingsFold<T>(r: Reduction<T>)
    requires AllWellformed(r.Objects()) && NothingShadowed(r.Objects())
    ensures r.Result() == Fold(r.Objects())
  {
    hide Wellformed, NothingShadowed, MergeObjects;
    assert [] + r.Objects() == r.Objects();
    BehindFold([], r);
    ReductionWellformed(r);
    assert Fold<T>([]) == RofsObject(map[], []);
    MergeObjectsAssociativeIff(r.Result(), r.Result(), r.Result());
  }

  // ---- needed ----

  /** However the objects are cut into three parts, the two ways of merging the parts agree. */
  ghost predicate PartsAssociate<T>(objs: seq<RofsObject<T>>) {
    forall i, j | 0 < i < j < |objs| ::
      NoShadowedBlocks(Fold(objs[..i]).Inner(), Fold(objs[i..j]).Inner(), Fold(objs[j..]).Inner())
  }

  lemma EmptyHasNoShadow<T>(a: RofsObject<T>, b: RofsObject<T>, c: RofsObject<T>)
    requires Wellformed(a) && Wellformed(b) && Wellformed(c)
    requires a.root == map[] || b.root == map[] || c.root == map[]
    ensures NoShadowedBlocks(a.Inner(), b.Inner(), c.Inner())
  {
    hide Wellformed, Blocked, HasFile, Conflict;
    forall p | HasFile(c.Inner(), p) && !Blocked(a.Inner(), p) && Blocked(b.Inner(), p)
      ensures exists q :: HasFile(b.Inner(), q) && !Blocked(a.Inner(), q) && Conflict(p, q)
    {
      HasNoRootFile(c.Inner(), p);
      NothingThere(p);
      var q := BlockedByFile(b, p);
      HasNoRootFile(b.Inner(), q);
      NothingThere(q);
      assert a.root == map[];
    }
  }

  lemma NothingThere(q: Path)
    requires q != []
    ensures !HasFile(map[], q) && !Blocked(map[], q)
  {
    NothingInEmpty(q);
  }

  /** Two groupings of the same objects in the same order have the same result. */
  ghost predicate GroupingsAgree<T(!new)>(objs: seq<RofsObject<T>>) {
    forall r: Reduction<T>, s: Reduction<T> | r.Objects() == objs && s.Objects() == objs :: r.Result() == s.Result()
  }

  lemma AgreeingPartsAssociate<T(!new)>(objs: seq<RofsObject<T>>)
    requires AllWellformed(objs) && GroupingsAgree(objs)
    ensures PartsAssociate(objs)
  {
    hide Wellformed, NoShadowedBlocks, Fold;
    forall i, j | 0 < i < j < |objs|
      ensures NoShadowedBlocks(Fold(objs[..i]).Inner(), Fold(objs[i..j]).Inner(), Fold(objs[j..]).Inner())
    {
      assert objs[..i] + objs[i..j] + objs[j..] == objs;
      ThreeParts(objs[..i], objs[i..j], objs[j..]);
    }
  }

  lemma ThreeParts<T(!new)>(xs: seq<RofsObject<T>>, ys: seq<RofsObject<T>>, zs: seq<RofsObject<T>>)
    requires AllWellformed(xs + ys + zs) && GroupingsAgree(xs + ys + zs)
    ensures NoShadowedBlocks(Fold(xs).Inner(), Fold(ys).Inner(), Fold(zs).Inner())
  {
    hide Wellformed, NoShadowedBlocks, MergeObjects, Chain, RofsObject.Inner;
    WellformedConcat(xs + ys, zs);
    WellformedConcat(xs, ys);
    FoldWellformed(xs);
    FoldWellformed(ys);
    FoldWellformed(zs);
    TwoGroupings(xs, ys, zs);
    MergeObjectsAssociativeIff(Fold(xs), Fold(ys), Fold(zs));
    if Fold(xs).root == map[] || Fold(ys).root == map[] || Fold(zs).root == map[] {
      EmptyHasNoShadow(Fold(xs), Fold(ys), Fold(zs));
    }
  }

  lemma TwoGroupings<T(!new)>(xs: seq<RofsObject<T>>, ys: seq<RofsObject<T>>, zs: seq<RofsObject<T>>)
    requires GroupingsAgree(xs + ys + zs)
    ensures MergeObjects(MergeObjects(Fold(xs), Fold(ys)), Fold(zs))
            == MergeObjects(Fold(xs), MergeObjects(Fold(ys), Fold(zs)))
  {
    hide MergeObjects, Chain;
    var x, y, z := Chain(xs), Chain(ys), Chain(zs);
    ChainObjects(xs);
    ChainObjects(ys);
    ChainObjects(zs);
    assert xs + ys + zs == xs + (ys + zs);
    var r: Reduction<T>, s: Reduction<T> := Both(Both(x, y), z), Both(x, Both(y, z));
    assert r.Objects() == Both(x, y).Objects() + zs && s.Objects() == xs + Both(y, z).Objects();
    assert r.Result() == MergeObjects(Both(x, y).Result(), z.Result());
    assert s.Result() == MergeObjects(x.Result(), Both(y, z).Result());
  }

  /** The last object before `k` that blocks a free file of object `k` blocks it by a file that is kept. */
  lemma {:induction false} FreeIsUnblocked<T>(objs: seq<RofsObject<T>>, k: nat, i: nat, p: Path)
    requires AllWellformed(objs) && PartsAssociate(objs) && i < k < |objs|
    requires HasFile(objs[k].Inner(), p) && !Blocked(Fold(objs[..k]).Inner(), p)
    ensures !Blocked(objs[i].Inner(), p)
    decreases k - i
  {
    hide Wellformed, HasFile, Blocked, Fold, PartsAssociate;
    forall j | i < j < k ensures !Blocked(objs[j].Inner(), p) { FreeIsUnblocked(objs, k, j, p); }
    HasNoRootFile(objs[k].Inner(), p);
    if Blocked(objs[i].Inner(), p) {
      var q := FreeBlocker(objs, k, i, p);
      assert objs[..k][..i] == objs[..i];
      KeptAt(objs[..k], i, q);
      WellformedPrefix(objs, k);
      FileBlocks(Fold(objs[..k]), p, q);
    }
  }

  lemma FreeBlocker<T>(objs: seq<RofsObject<T>>, k: nat, i: nat, p: Path) returns (q: Path)
    requires AllWellformed(objs) && PartsAssociate(objs) && i < k < |objs| && p != []
    requires HasFile(objs[k].Inner(), p) && !Blocked(Fold(objs[..k]).Inner(), p)
    requires Blocked(objs[i].Inner(), p) && forall j | i < j < k :: !Blocked(objs[j].Inner(), p)
    ensures HasFile(objs[i].Inner(), q) && !Blocked(Fold(objs[..i]).Inner(), q) && Conflict(p, q)
  {
    hide Wellformed, HasFile, Blocked, Fold, Conflict;
    if i == 0 {
      q := BlockedByFile(objs[i], p);
      HasNoRootFile(objs[i].Inner(), q);
      assert !Blocked(Fold(objs[..i]).Inner(), q) by { NothingFoldedBlocks<T>(q); }
    } else {
      FreeBehind(objs, k, i, p);
      FreeBefore(objs, k, i, p);
      assert objs[i..i + 1] == [objs[i]];
      FoldOfOne(objs[i]);
      assert NoShadowedBlocks(Fold(objs[..i]).Inner(), objs[i].Inner(), Fold(objs[i + 1..]).Inner());
      q :| HasFile(objs[i].Inner(), q) && !Blocked(Fold(objs[..i]).Inner(), q) && Conflict(p, q);
    }
  }

  lemma NothingFoldedBlocks<T>(q: Path)
    requires q != []
    ensures !Blocked(Fold<T>([]).Inner(), q)
  {
  }

  lemma FreeBefore<T>(objs: seq<RofsObject<T>>, k: nat, i: nat, p: Path)
    requires AllWellformed(objs) && i <= k < |objs| && p != [] && !Blocked(Fold(objs[..k]).Inner(), p)
    ensures !Blocked(Fold(objs[..i]).Inner(), p)
  {
    hide Wellformed, HasFile, Blocked, Fold;
    WellformedPrefix(objs, i);
    WellformedPrefix(objs, k);
    assert objs[..k][..i] == objs[..i];
    forall q ensures HasFile(Fold(objs[..i]).Inner(), q) ==> HasFile(Fold(objs[..k]).Inner(), q) {
      PrefixKept(objs[..k], i, q);
    }
    BlockedMore(Fold(objs[..i]), Fold(objs[..k]), p);
  }

  lemma FreeBehind<T>(objs: seq<RofsObject<T>>, k: nat, i: nat, p: Path)
    requires AllWellformed(objs) && i < k < |objs| && p != [] && HasFile(objs[k].Inner(), p)
    requires forall j | i < j < k :: !Blocked(objs[j].Inner(), p)
    ensures HasFile(Fold(objs[i + 1..]).Inner(), p)
  {
    hide Wellformed, HasFile, Blocked;
    var tail, n := objs[i + 1..], k - i - 1;
    var between := tail[..n];
    ChainObjects(between);
    assert forall j :: 0 <= j < n ==> between[j] == objs[i + 1 + j];
    if Blocked(Fold(between).Inner(), p) {
      var j := BlockedByHeld(Chain(between), p);
    }
    KeptAt(tail, n, p);
  }

  lemma PartsLeaveNothingShadowed<T>(objs: seq<RofsObject<T>>)
    requires AllWellformed(objs) && PartsAssociate(objs)
    ensures NothingShadowed(objs)
  {
    hide Wellformed, HasFile, Blocked, Fold, PartsAssociate;
    forall k, i, p | 0 <= i < k < |objs| && HasFile(objs[k].Inner(), p) && Blocked(objs[i].Inner(), p)
      ensures Blocked(Fold(objs[..k]).Inner(), p)
    {
      if !Blocked(Fold(objs[..k]).Inner(), p) { FreeIsUnblocked(objs, k, i, p); }
    }
  }

  /** All groupings of a reduction agree if and only if nothing is shadowed, if and only if all cuts into
      three parts associate. */
  lemma AllGroupingsAgreeIff<T(!new)>(objs: seq<RofsObject<T>>)
    requires AllWellformed(objs)
    ensures GroupingsAgree(objs) <==> NothingShadowed(objs)
    ensures GroupingsAgree(objs) <==> PartsAssociate(objs)
  {
    hide Wellformed, NothingShadowed, PartsAssociate, Fold;
    if GroupingsAgree(objs) { AgreeingPartsAssociate(objs); }
    if PartsAssociate(objs) { PartsLeaveNothingShadowed(objs); }
    if NothingShadowed(objs) {
      forall r: Reduction<T>, s: Reduction<T> | r.Objects() == objs && s.Objects() == objs
        ensures r.Result() == s.Result()
      {
        AllGroupingsFold(r);
        AllGroupingsFold(s);
      }
    }
  }

  /** No proper prefixes is more than is needed. */
  lemma PrefixFreeGroupingsAgree<T(!new)>(objs: seq<RofsObject<T>>)
    requires AllWellformed(objs) && NoProperPrefixes(objs)
    ensures GroupingsAgree(objs)
  {
    hide Wellformed, Fold, HasFile, Blocked, Conflict, NoProperPrefixes;
    forall k, i, p | 0 <= i < k < |objs| && HasFile(objs[k].Inner(), p) && Blocked(objs[i].Inner(), p)
      ensures Blocked(Fold(objs[..k]).Inner(), p)
    {
      HasNoRootFile(objs[k].Inner(), p);
      var q := BlockedByFile(objs[i], p);
      SamePath(objs, i, k, q, p);
      assert objs[..k][i] == objs[i];
      WellformedPrefix(objs, k);
      if !Blocked(Fold(objs[..k]).Inner(), p) {
        assert objs[..k][..i] == objs[..i];
        FreeBefore(objs, k, i, p);
        KeptAt(objs[..k], i, p);
        OwnPath(p);
        FileBlocks(Fold(objs[..k]), p, p);
      }
    }
    AllGroupingsAgreeIff(objs);
  }

  lemma SamePath<T>(objs: seq<RofsObject<T>>, i: nat, k: nat, q: Path, p: Path)
    requires NoProperPrefixes(objs) && i < |objs| && k < |objs| && Conflict(p, q)
    requires HasFile(objs[i].Inner(), q) && HasFile(objs[k].Inner(), p)
    ensures p == q
  {
    hide HasFile;
    ConflictCases(p, q);
    assert HeldBy(objs, p) && HeldBy(objs, q);
  }
}

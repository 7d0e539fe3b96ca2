/** The whole way from the archives' path lists to the mounted index: every list becomes an object, a
    parallel reduction merges the objects, and the result is flattened. */
module Finish {
  import opened Bytes
  import opened Paths
  import opened Trie
  import opened Merge
  import opened Object
  import opened Flatten
  import opened Index
  import opened Lookup

  /** One archive's files, by path. */
  type Listing<T> = seq<(seq<byte>, T)>

  /** What `RofsObject::new` makes of a listing. */
  function BuiltFrom<T>(config: Config, files: Listing<T>): RofsObject<T> {
    RofsObject(map[[] := Branch(BuildTrie(Keys(config, files)))],
               seq(|files|, i requires 0 <= i < |files| => files[i].1))
  }

  /** The file a listing has under a key: that of the path the greedy prefix-free choice keeps. */
  function Listed<T>(config: Config, files: Listing<T>, key: Path): Option<T> {
    var kept := Greedy(Keys(config, files));
    if key in kept && kept[key] < |files| then Some(files[kept[key]].1) else None
  }

  /** Some listing has the key. */
  ghost predicate ListedBy<T>(config: Config, archives: seq<Listing<T>>, key: Path) {
    exists i :: 0 <= i < |archives| && Listed(config, archives[i], key).Some?
  }

  /** The file of the first listing, in the order of the reduction, that has the key. */
  function FirstListed<T>(config: Config, archives: seq<Listing<T>>, key: Path): Option<T> {
    if archives == [] then None
    else if Listed(config, archives[0], key).Some? then Listed(config, archives[0], key)
    else FirstListed(config, archives[1..], key)
  }

  /** No key of one listing is a proper prefix of a key of another; listings may share keys. */
  ghost predicate NoListedPrefixes<T>(config: Config, archives: seq<Listing<T>>) {
    forall p, q :: ListedBy(config, archives, p) && ListedBy(config, archives, q) && p <= q ==> p == q
  }

  /** The objects of all archives, in order. */
  function AllBuilt<T>(config: Config, archives: seq<Listing<T>>): (objs: seq<RofsObject<T>>)
    ensures |objs| == |archives| && forall i :: 0 <= i < |archives| ==> objs[i] == BuiltFrom(config, archives[i])
  {
    seq(|archives|, i requires 0 <= i < |archives| => BuiltFrom(config, archives[i]))
  }

  lemma BuiltHolds<T>(config: Config, files: Listing<T>)
    ensures Wellformed(BuiltFrom(config, files)) && LowerNames(Branch(BuiltFrom(config, files).Inner()))
    ensures BuiltFrom(config, files).root != map[]
    ensures forall q :: HasFile(BuiltFrom(config, files).Inner(), q) <==> q in Greedy(Keys(config, files))
    ensures forall q :: Resolved(BuiltFrom(config, files), q) == Listed(config, files, q)
    ensures forall q :: q in Greedy(Keys(config, files)) <==> Listed(config, files, q).Some?
  {
    hide BuildTrie, Greedy, LowerNames, Wellformed, FileAt;
    var obj, keys := BuiltFrom(config, files), Keys(config, files);
    BuiltObjectResolves(keys, obj.files);
    KeysAreLower(config, files);
    BuildLowerNames(keys);
    BuildIsGreedy(keys);
    assert [] in obj.root;
    assert obj.Inner() == BuildTrie(keys);
  }

  /** What the theorems about reductions need of the objects. */
  lemma AllBuiltHold<T>(config: Config, archives: seq<Listing<T>>)
    ensures var objs := AllBuilt(config, archives);
            && AllWellformed(objs) && AllLower(objs) && (archives != [] ==> SomeRooted(objs))
            && (forall p :: HeldBy(objs, p) <==> ListedBy(config, archives, p))
  {
    hide BuiltFrom, Wellformed, LowerNames, Listed, FileAt, Greedy, Keys;
    var objs := AllBuilt(config, archives);
    forall i | 0 <= i < |archives|
      ensures Wellformed(objs[i]) && LowerNames(Branch(objs[i].Inner())) && objs[i].root != map[]
      ensures forall p :: HasFile(objs[i].Inner(), p) <==> Listed(config, archives[i], p).Some?
    {
      BuiltHolds(config, archives[i]);
    }
    forall p ensures HeldBy(objs, p) <==> ListedBy(config, archives, p) {
      if i :| 0 <= i < |archives| && Listed(config, archives[i], p).Some? { assert HasFile(objs[i].Inner(), p); }
    }
    if archives != [] { assert objs[0].root != map[]; }
  }

  lemma {:induction false} FirstIsFirstListed<T>(config: Config, archives: seq<Listing<T>>, p: Path)
    requires AllWellformed(AllBuilt(config, archives))
    ensures First(AllBuilt(config, archives), p) == FirstListed(config, archives, p)
  {
    hide BuiltFrom, Wellformed, Listed, Resolved;
    if archives == [] {
    } else {
      BuiltHolds(config, archives[0]);
      assert AllBuilt(config, archives)[1..] == AllBuilt(config, archives[1..]);
      AllBuiltHold(config, archives[1..]);
      FirstIsFirstListed(config, archives[1..], p);
    }
  }

  predicate AllLower<T>(objs: seq<RofsObject<T>>) {
    forall i :: 0 <= i < |objs| ==> LowerNames(Branch(objs[i].Inner()))
  }

  lemma ConcatBoth<T>(xs: seq<RofsObject<T>>, ys: seq<RofsObject<T>>)
    requires AllWellformed(xs + ys) && AllLower(xs + ys)
    ensures AllWellformed(xs) && AllWellformed(ys) && AllLower(xs) && AllLower(ys)
  {
    hide LowerNames;
    WellformedConcat(xs, ys);
    assert forall i :: 0 <= i < |xs| ==> (xs + ys)[i] == xs[i];
    assert forall j :: 0 <= j < |ys| ==> (xs + ys)[|xs| + j] == ys[j];
  }

  /** Any reduction keeps its names in lower case, and has a root directory if one of its objects does. */
  lemma {:induction false} ResultLower<T>(r: Reduction<T>)
    requires AllWellformed(r.Objects()) && AllLower(r.Objects())
    ensures Wellformed(r.Result()) && LowerNames(Branch(r.Result().Inner()))
    ensures SomeRooted(r.Objects()) ==> r.Result().root != map[]
  {
    match r
    case Identity =>
    case One(obj) => assert r.Objects()[0] == obj;
    case Both(left, right) => BothLower(left, right);
  }

  lemma {:induction false} BothLower<T>(left: Reduction<T>, right: Reduction<T>)
    requires AllWellformed(left.Objects() + right.Objects()) && AllLower(left.Objects() + right.Objects())
    ensures var r := Both(left, right);
            && Wellformed(r.Result()) && LowerNames(Branch(r.Result().Inner()))
            && (SomeRooted(r.Objects()) ==> r.Result().root != map[])
    decreases Both(left, right), 0
  {
    hide Wellformed, LowerNames, AllWellformed, AllLower;
    ConcatBoth(left.Objects(), right.Objects());
    ResultLower(left);
    ResultLower(right);
    MergedWellformed(left.Result(), right.Result());
    MergedObjectLowerNames(left.Result(), right.Result());
    if SomeRooted(left.Objects() + right.Objects()) {
      RootedConcat(left.Objects(), right.Objects());
      MergedRooted(left.Result(), right.Result());
    }
  }

  ghost predicate SomeRooted<T>(objs: seq<RofsObject<T>>) {
    exists i :: 0 <= i < |objs| && objs[i].root != map[]
  }

  lemma RootedConcat<T>(xs: seq<RofsObject<T>>, ys: seq<RofsObject<T>>)
    requires SomeRooted(xs + ys)
    ensures SomeRooted(xs) || SomeRooted(ys)
  {
    var s := xs + ys;
    var i :| 0 <= i < |s| && s[i].root != map[];
    assert s[i] == if i < |xs| then xs[i] else ys[i - |xs|];
  }

  lemma MergedRooted<T>(a: RofsObject<T>, b: RofsObject<T>)
    requires Wellformed(a) && Wellformed(b) && (a.root != map[] || b.root != map[])
    ensures MergeObjects(a, b).root != map[]
  {
    if a.root != map[] && b.root != map[] {
      MergedInner(a, b);
      assert [] in MergeObjects(a, b).root;
    }
  }

  /** The index made from no object finds nothing. */
  lemma EmptyIndexFindsNothing<T>(config: Config, fs: Rofs<T>, plan: seq<Planned>, path: seq<byte>)
    requires Flattened(fs.nodes, fs.names, plan, map[])
    ensures fs.nodes == [] && InRange(fs.nodes) && FileFound(config, fs, path) == None
  {
    hide SegmentOk, DistinctEntries;
    if |plan| > 1 { SecondIsEntryOfFirst(plan); }
    assert fs.nodes == [];
  }

  lemma SecondIsEntryOfFirst(plan: seq<Planned>)
    requires ParentsOk(plan) && |plan| > 1
    ensures plan[0].children != map[]
  {
    assert plan[1].parent == 0 && plan[1].name in plan[plan[1].parent].children;
  }

  /** The index finds what the reduction's result resolves, whatever conflicts there are. */
  lemma IndexFindsResult<T>(config: Config, archives: seq<Listing<T>>, r: Reduction<T>,
                            fs: Rofs<T>, plan: seq<Planned>, path: seq<byte>)
    requires r.Objects() == AllBuilt(config, archives)
    requires Flattened(fs.nodes, fs.names, plan, r.Result().root) && fs.files == r.Result().files
    ensures InRange(fs.nodes) && Wellformed(r.Result())
    ensures FileFound(config, fs, path) == Resolved(r.Result(), Key(config, path))
  {
    hide Reduction.Objects, Reduction.Result, BuiltFrom, Flattened, InRange, FileFound, LowerNames, Resolved, FileAt;
    AllBuiltHold(config, archives);
    ResultLower(r);
    if r.Result().root == map[] {
      EmptyIndexFindsNothing(config, fs, plan, path);
      NothingResolved(r.Result(), Key(config, path));
    } else {
      IndexResolvesObject(config, r.Result(), fs, plan, path);
    }
  }

  lemma NothingResolved<T>(obj: RofsObject<T>, p: Path)
    requires Wellformed(obj) && obj.root == map[]
    ensures Resolved(obj, p) == None
  {
    NothingInEmpty(p);
  }

  /** However the reduction is grouped, a path finds in the mounted index the file of the first archive, in
      order, that lists its key, and nothing when none does. Archives may share paths. */
  lemma MountedIndexFinds<T>(config: Config, archives: seq<Listing<T>>, r: Reduction<T>,
                             fs: Rofs<T>, plan: seq<Planned>, path: seq<byte>)
    requires NoListedPrefixes(config, archives) && r.Objects() == AllBuilt(config, archives)
    requires Flattened(fs.nodes, fs.names, plan, r.Result().root) && fs.files == r.Result().files
    ensures InRange(fs.nodes) && FileFound(config, fs, path) == FirstListed(config, archives, Key(config, path))
  {
    hide *;
    AllBuiltHold(config, archives);
    SamePrefixes(config, archives);
    ReductionResolvesFirst(r);
    IndexFindsResult(config, archives, r, fs, plan, path);
    ResolvesFirstAt(r.Result(), r.Objects(), Key(config, path));
    FirstIsFirstListed(config, archives, Key(config, path));
  }

  lemma SamePrefixes<T>(config: Config, archives: seq<Listing<T>>)
    ensures NoProperPrefixes(AllBuilt(config, archives)) <==> NoListedPrefixes(config, archives)
  {
    AllBuiltHold(config, archives);
    hide HeldBy, ListedBy, AllBuilt;
  }

  lemma ResolvesFirstAt<T>(obj: RofsObject<T>, objs: seq<RofsObject<T>>, p: Path)
    requires Wellformed(obj) && AllWellformed(objs) && ResolvesFirst(obj, objs)
    ensures Resolved(obj, p) == First(objs, p)
  {
  }

  /** A listed key is the key of some path. */
  lemma ListedKeyHasPath<T>(config: Config, archives: seq<Listing<T>>, key: Path) returns (path: seq<byte>)
    requires ListedBy(config, archives, key)
    ensures Key(config, path) == key
  {
    var i :| 0 <= i < |archives| && Listed(config, archives[i], key).Some?;
    GreedyChooses(Keys(config, archives[i]));
    var k :| 0 <= k < |archives[i]| && Keys(config, archives[i])[k] == key;
    path := archives[i][k].0;
  }

  lemma {:induction false} GreedyChooses(paths: seq<Path>)
    ensures forall q :: q in Greedy(paths) ==> q in paths
  {
    if paths == [] {
    } else {
      GreedyChooses(paths[..|paths| - 1]);
      assert paths == paths[..|paths| - 1] + [paths[|paths| - 1]];
    }
  }

  lemma {:induction false} FirstListedIsListed<T>(config: Config, archives: seq<Listing<T>>, key: Path)
    ensures FirstListed(config, archives, key).Some? <==> ListedBy(config, archives, key)
  {
    hide Listed;
    if archives == [] {
    } else {
      FirstListedIsListed(config, archives[1..], key);
      assert archives == [archives[0]] + archives[1..];
      if i :| 0 <= i < |archives| && Listed(config, archives[i], key).Some? {
        if i > 0 { assert archives[1..][i - 1] == archives[i]; }
      }
      if i :| 0 <= i < |archives[1..]| && Listed(config, archives[1..][i], key).Some? {
        assert archives[i + 1] == archives[1..][i];
      }
    }
  }

  /** Every path finds the first listed file under its key. */
  ghost predicate FindsFirst<T>(config: Config, archives: seq<Listing<T>>, fs: Rofs<T>)
    requires InRange(fs.nodes)
  {
    forall path: seq<byte> :: FileFound(config, fs, path) == FirstListed(config, archives, Key(config, path))
  }

  /** The premise is exact: where a key of one archive is a proper prefix of another's, some listed file is
      not found, however the reduction is grouped. */
  lemma MountedIndexFindsIff<T>(config: Config, archives: seq<Listing<T>>, r: Reduction<T>, fs: Rofs<T>,
                                plan: seq<Planned>)
    requires r.Objects() == AllBuilt(config, archives)
    requires Flattened(fs.nodes, fs.names, plan, r.Result().root) && fs.files == r.Result().files
    ensures InRange(fs.nodes) && (FindsFirst(config, archives, fs) <==> NoListedPrefixes(config, archives))
  {
    hide Flattened, InRange, FileFound, Key, FirstListed, Reduction.Result, Reduction.Objects, AllBuilt, ListedBy,
        Wellformed;
    IndexFindsResult(config, archives, r, fs, plan, []);
    if NoListedPrefixes(config, archives) {
      forall path: seq<byte> ensures FileFound(config, fs, path) == FirstListed(config, archives, Key(config, path)) {
        MountedIndexFinds(config, archives, r, fs, plan, path);
      }
    } else if FindsFirst(config, archives, fs) {
      var p, q :| ListedBy(config, archives, p) && ListedBy(config, archives, q) && p <= q && p != q;
      ListedIsResolved(config, archives, r, fs, plan, p);
      ListedIsResolved(config, archives, r, fs, plan, q);
      FilesDoNotConflict(r.Result().Inner(), p, q);
    }
  }

  lemma ListedIsResolved<T>(config: Config, archives: seq<Listing<T>>, r: Reduction<T>, fs: Rofs<T>, plan: seq<Planned>,
                            key: Path)
    requires r.Objects() == AllBuilt(config, archives) && ListedBy(config, archives, key)
    requires Flattened(fs.nodes, fs.names, plan, r.Result().root) && fs.files == r.Result().files
    requires InRange(fs.nodes) && FindsFirst(config, archives, fs)
    ensures HasFile(r.Result().Inner(), key)
  {
    hide Flattened, InRange, FileFound, Key, FirstListed, Reduction.Result, Reduction.Objects, AllBuilt, ListedBy,
        Wellformed;
    var path := ListedKeyHasPath(config, archives, key);
    FirstListedIsListed(config, archives, key);
    IndexFindsResult(config, archives, r, fs, plan, path);
    assert FileFound(config, fs, path).Some?;
  }

  // ---- names stay within what the index can hold ----

  lemma {:induction false} InsertFits(t: Children, p: Path, i: nat)
    requires FitNames(Branch(t)) && WalkFits(t, p)
    ensures FitNames(Branch(Insert(t, p, i)))
    decreases |p|
  {
    if p == [] {
    } else {
      var u := Insert(t, p, i);
      if p[0] !in t { InsertFits(map[], p[1..], i); }
      else {
        assert FitNames(t[p[0]]);
        if t[p[0]].Branch? { InsertFits(t[p[0]].children, p[1..], i); }
      }
      forall c | c in u ensures |c| <= MAX_NAME && FitNames(u[c]) { if c != p[0] { assert FitNames(t[c]); } }
    }
  }

  lemma {:induction false} BuildFits(paths: seq<Path>)
    requires NamesFit(paths)
    ensures FitNames(Branch(BuildTrie(paths)))
  {
    if paths == [] {
    } else {
      var front, p := paths[..|paths| - 1], paths[|paths| - 1];
      forall i | 0 <= i < |front| ensures WalkFits(BuildTrie(front[..i]), front[i]) {
        FitsAt(paths, i);
        assert front[..i] == paths[..i];
      }
      FitsAt(paths, |paths| - 1);
      BuildFits(front);
      InsertFits(BuildTrie(front), p, |paths| - 1);
    }
  }

  lemma {:induction false} AdjustedFits(node: TreeNode, offset: nat)
    requires FitNames(node)
    ensures FitNames(Adjusted(node, offset))
    decreases node
  {
    if node.Leaf? {
    } else {
      forall c | c in node.children ensures FitNames(Adjusted(node.children[c], offset)) {
        AdjustedFits(node.children[c], offset);
      }
    }
  }

  lemma {:induction false} MergedFits(a: TreeNode, b: TreeNode)
    requires FitNames(a) && FitNames(b)
    ensures FitNames(Merged(a, b))
    decreases a
  {
    if a.Leaf? || b.Leaf? {
    } else {
      var m := Merged(a, b).children;
      forall c | c in m ensures |c| <= MAX_NAME && FitNames(m[c]) {
        if c in a.children && c in b.children { MergedFits(a.children[c], b.children[c]); }
      }
    }
  }

  lemma MergedObjectFits<T>(a: RofsObject<T>, b: RofsObject<T>)
    requires FitNames(Branch(a.root)) && FitNames(Branch(b.root))
    ensures FitNames(Branch(MergeObjects(a, b).root))
  {
    AdjustedFits(Branch(b.root), |a.files|);
    MergedFits(Branch(a.root), Branch(AdjustedChildren(b.root, |a.files|)));
  }

  // ---- building, reducing and flattening ----

  function FileCount<T>(objs: seq<RofsObject<T>>): nat {
    if objs == [] then 0 else |objs[0].files| + FileCount(objs[1..])
  }

  lemma {:induction false} FileCountConcat<T>(xs: seq<RofsObject<T>>, ys: seq<RofsObject<T>>)
    ensures FileCount(xs + ys) == FileCount(xs) + FileCount(ys)
  {
    if xs == [] {
      assert xs + ys == ys;
    } else {
      assert (xs + ys)[0] == xs[0] && (xs + ys)[1..] == xs[1..] + ys;
      FileCountConcat(xs[1..], ys);
    }
  }

  lemma {:induction false} ResultFileCount<T>(r: Reduction<T>)
    ensures |r.Result().files| <= FileCount(r.Objects())
  {
    match r
    case Identity =>
    case One(obj) => assert r.Objects()[1..] == [];
    case Both(left, right) =>
      ResultFileCount(left);
      ResultFileCount(right);
      FileCountConcat(left.Objects(), right.Objects());
  }

  predicate AllFit<T>(objs: seq<RofsObject<T>>) {
    forall i :: 0 <= i < |objs| ==> FitNames(Branch(objs[i].root))
  }

  lemma FitConcat<T>(xs: seq<RofsObject<T>>, ys: seq<RofsObject<T>>)
    requires AllFit(xs + ys)
    ensures AllFit(xs) && AllFit(ys)
  {
    hide FitNames;
    assert forall i :: 0 <= i < |xs| ==> (xs + ys)[i] == xs[i];
    assert forall j :: 0 <= j < |ys| ==> (xs + ys)[|xs| + j] == ys[j];
  }

  lemma {:induction false} ResultFits<T>(r: Reduction<T>)
    requires AllFit(r.Objects())
    ensures FitNames(Branch(r.Result().root))
  {
    match r
    case Identity =>
    case One(obj) => assert r.Objects()[0] == obj;
    case Both(left, right) =>
      FitConcat(left.Objects(), right.Objects());
      ResultFits(left);
      ResultFits(right);
      MergedObjectFits(left.Result(), right.Result());
  }

  lemma BuiltFits<T>(config: Config, files: Listing<T>)
    requires NamesFit(Keys(config, files))
    ensures FitNames(Branch(BuiltFrom(config, files).root))
  {
    hide BuildTrie, Keys, NamesFit;
    BuildFits(Keys(config, files));
  }

  /** How the parallel reduction came to group what it was given, by index. */
  datatype Grouping = Nothing | Object(index: nat) | Pair(left: Grouping, right: Grouping) {
    function Indices(): seq<nat> {
      match this
      case Nothing => []
      case Object(i) => [i]
      case Pair(l, r) => l.Indices() + r.Indices()
    }

    predicate Within(n: nat) {
      match this
      case Nothing => true
      case Object(i) => i < n
      case Pair(l, r) => l.Within(n) && r.Within(n)
    }

    function Over<T>(objs: seq<RofsObject<T>>): (r: Reduction<T>)
      requires Within(|objs|)
      ensures |r.Objects()| == |Indices()|
      ensures forall k :: 0 <= k < |Indices()| ==> Indices()[k] < |objs| && r.Objects()[k] == objs[Indices()[k]]
    {
      match this
      case Nothing => Identity
      case Object(i) => One(objs[i])
      case Pair(l, r) => Both(l.Over(objs), r.Over(objs))
    }
  }

  /** Every object once, in order. */
  predicate Groups(g: Grouping, n: nat) {
    g.Within(n) && |g.Indices()| == n && forall k :: 0 <= k < n ==> g.Indices()[k] == k
  }

  /** There is such a grouping, for any number of objects. */
  lemma {:induction false} GroupingExists(n: nat) returns (g: Grouping)
    ensures Groups(g, n)
  {
    if n == 0 {
      g := Nothing;
    } else {
      var rest := GroupingExists(n - 1);
      WithinMore(rest, n - 1);
      g := Pair(rest, Object(n - 1));
    }
  }

  lemma {:induction false} WithinMore(g: Grouping, n: nat)
    requires g.Within(n)
    ensures g.Within(n + 1)
  {
    match g
    case Nothing =>
    case Object(_) =>
    case Pair(l, r) =>
      WithinMore(l, n);
      WithinMore(r, n);
  }

  lemma GroupedObjects<T>(g: Grouping, objs: seq<RofsObject<T>>)
    requires Groups(g, |objs|)
    ensures g.Over(objs).Objects() == objs
  {
  }

  /** `reduce`, grouped as it happens. */
  method Reduce<T>(r: Reduction<T>) returns (obj: RofsObject<T>)
    requires FileCount(r.Objects()) < U32_LIMIT
    ensures obj == r.Result()
    decreases r
  {
    match r
    case Identity => obj := RofsObject(map[], []);
    case One(o) => obj := o;
    case Both(left, right) =>
      FileCountConcat(left.Objects(), right.Objects());
      ResultFileCount(left);
      ResultFileCount(right);
      var l := Reduce(left);
      var m := Reduce(right);
      obj := MergeInto(l, m);
  }

  /** `finish`: an object for every archive, a reduction however grouped, and the index of its result. */
  method FinishAll<T>(config: Config, archives: seq<Listing<T>>, g: Grouping) returns (fs: Option<Rofs<T>>)
    requires Groups(g, |archives|) && FileCount(AllBuilt(config, archives)) < U32_LIMIT
    requires forall i :: 0 <= i < |archives| ==> |archives[i]| < U32_LIMIT && NamesFit(Keys(config, archives[i]))
    requires Below(Branch(g.Over(AllBuilt(config, archives)).Result().root)) < U32_LIMIT
    ensures Below(Branch(g.Over(AllBuilt(config, archives)).Result().root)) * (MAX_NAME + 1) < U32_LIMIT ==> fs.Some?
    ensures fs.Some? ==> InRange(fs.value.nodes)
    ensures fs.Some? ==> (FindsFirst(config, archives, fs.value) <==> NoListedPrefixes(config, archives))
  {
    hide NamesFit, Keys, Below, FitNames, Flattened, Wellformed, BuildTrie, NoListedPrefixes, FindsFirst;
    var objs: seq<RofsObject<T>> := [];
    for i := 0 to |archives|
      invariant |objs| == i && forall k :: 0 <= k < i ==>
                objs[k] == BuiltFrom(config, archives[k]) && FitNames(Branch(objs[k].root))
    {
      var built := New(config, archives[i]);
      assert built == BuiltFrom(config, archives[i]);
      BuiltFits(config, archives[i]);
      objs := objs + [built];
    }
    assert objs == AllBuilt(config, archives);
    GroupedObjects(g, objs);
    var r := g.Over(objs);
    var obj := Reduce(r);
    ResultFits(r);
    AtMostRoot(config, archives, r);
    ghost var plan;
    fs, plan := IntoRofs(obj);
    if fs.Some? {
      MountedIndexFindsIff(config, archives, r, fs.value, plan);
    }
  }

  lemma AtMostRoot<T>(config: Config, archives: seq<Listing<T>>, r: Reduction<T>)
    requires r.Objects() == AllBuilt(config, archives)
    ensures |r.Result().root| <= 1
  {
    AllBuiltHold(config, archives);
    hide AllBuilt, Reduction.Objects, Reduction.Result;
    ReductionWellformed(r);
  }
}

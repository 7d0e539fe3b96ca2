/** `RofsObject`: the index of one archive, built from its paths, and the reduction that merges the
    objects of all archives. */
module Object {
  import opened Bytes
  import opened Paths
  import opened Trie
  import opened Merge

  const MAX_NAME := 255

  /** The root map is empty, or holds the root directory under the empty name. */
  datatype RofsObject<+T> = RofsObject(root: Children, files: seq<T>) {
    /** The names directly below the root directory. */
    function Inner(): Children {
      if [] in root && root[[]].Branch? then root[[]].children else map[]
    }
  }

  predicate IndicesBelow(node: TreeNode, n: nat)
    decreases node
  {
    match node
    case Leaf(i) => i < n
    case Branch(t) => forall c :: c in t ==> IndicesBelow(t[c], n)
  }

  predicate Wellformed<T>(obj: RofsObject<T>) {
    && (obj.root == map[] ==> obj.files == [])
    && (obj.root != map[] ==> obj.root == map[[] := Branch(obj.Inner())])
    && Sound(obj.Inner()) && IndicesBelow(Branch(obj.Inner()), |obj.files|)
  }

  /** The file an object has at a path. */
  function Resolved<T>(obj: RofsObject<T>, p: Path): Option<T>
    requires Wellformed(obj)
  {
    match FileAt(obj.Inner(), p)
    case None => None
    case Some(i) =>
      IndexOfFile(obj.Inner(), p, |obj.files|);
      Some(obj.files[i])
  }

  lemma {:induction false} IndexOfFile(t: Children, p: Path, n: nat)
    requires IndicesBelow(Branch(t), n) && HasFile(t, p)
    ensures FileAt(t, p).value < n
    decreases |p|
  {
    if p == [] {
      RootIsNoFile(t);
    } else {
      assert p == [p[0]] + p[1..];
      FileAtCons(t, p[0], p[1..]);
      assert IndicesBelow(t[p[0]], n);
      if t[p[0]].Branch? { IndexOfFile(t[p[0]].children, p[1..], n); }
    }
  }

  // ---- building ----

  /** The components a path is stored and looked up under: `..` resolved, case folded. */
  function Key(config: Config, path: seq<byte>): Path {
    LowerAll(Canonical(config, path))
  }

  function Keys<T>(config: Config, files: seq<(seq<byte>, T)>): (keys: seq<Path>)
    ensures |keys| == |files|
  {
    seq(|files|, i requires 0 <= i < |files| => Key(config, files[i].0))
  }

  /** The components one walk visits, up to the leaf that may stop it, are within what an index can name. */
  predicate WalkFits(t: Children, p: Path)
    decreases |p|
  {
    p == [] || (|p[0]| <= MAX_NAME
                && if p[0] !in t then WalkFits(map[], p[1..])
                   else t[p[0]].Leaf? || WalkFits(t[p[0]].children, p[1..]))
  }

  predicate NamesFit(paths: seq<Path>) {
    forall i :: 0 <= i < |paths| ==> WalkFits(BuildTrie(paths[..i]), paths[i])
  }

  lemma {:induction false} ShortWalkFits(t: Children, p: Path)
    requires forall c :: c in p ==> |c| <= 255
    ensures WalkFits(t, p)
    decreases |p|
  {
    if p == [] {
    } else {
      assert p[0] in p;
      if p[0] !in t {
        ShortWalkFits(map[], p[1..]);
      } else if t[p[0]].Branch? {
        ShortWalkFits(t[p[0]].children, p[1..]);
      }
    }
  }

  /** Names of at most 255 octets are enough, and for the names of a single path that is needed. */
  lemma ShortNamesFit(paths: seq<Path>)
    ensures (forall i :: 0 <= i < |paths| ==> Short(paths[i])) ==> NamesFit(paths)
    ensures |paths| == 1 ==> (NamesFit(paths) <==> Short(paths[0]))
  {
    if forall i :: 0 <= i < |paths| ==> Short(paths[i]) {
      forall i | 0 <= i < |paths| ensures WalkFits(BuildTrie(paths[..i]), paths[i]) {
        assert Short(paths[i]);
        ShortWalkFits(BuildTrie(paths[..i]), paths[i]);
      }
    }
    if |paths| == 1 && NamesFit(paths) {
      assert paths[..0] == [];
      FitsAt(paths, 0);
      FreshWalkIsShort(paths[0]);
    }
  }

  predicate Short(p: Path) { forall c :: c in p ==> |c| <= 255 }

  lemma {:induction false} FreshWalkIsShort(p: Path)
    requires WalkFits(map[], p)
    ensures Short(p)
  {
    if p == [] {
    } else {
      FreshWalkIsShort(p[1..]);
      assert p == [p[0]] + p[1..];
    }
  }

  lemma {:induction false} WithoutSkippedLower(pieces: seq<Name>)
    ensures WithoutSkipped(LowerAll(pieces)) == LowerAll(WithoutSkipped(pieces))
  {
    if pieces == [] {
      assert LowerAll(pieces) == [];
    } else {
      LowerKeepsKind(pieces[0]);
      WithoutSkippedLower(pieces[1..]);
      assert pieces == [pieces[0]] + pieces[1..];
      LowerAllCons(pieces[0], pieces[1..]);
      LowerAllCons(pieces[0], WithoutSkipped(pieces[1..]));
    }
  }

  /** Splitting the lowercased normalised path gives its key. */
  lemma KeyOfPath(config: Config, path: seq<byte>)
    ensures Components(config, Lower(Normalized(config, path))) == Key(config, path)
  {
    NormalizedComponents(config, path);
    SplitLower(config, Normalized(config, path));
    WithoutSkippedLower(Split(config, Normalized(config, path)));
  }

  lemma BuildNothing()
    ensures BuildTrie([]) == map[]
  {
  }

  /** `RofsObject::new`. */
  method New<T>(config: Config, files: seq<(seq<byte>, T)>) returns (obj: RofsObject<T>)
    requires |files| < U32_LIMIT && NamesFit(Keys(config, files))
    ensures obj.root == map[[] := Branch(BuildTrie(Keys(config, files)))]
    ensures |obj.files| == |files| && forall i :: 0 <= i < |files| ==> obj.files[i] == files[i].1
  {
    hide Key, BuildTrie, Components, Normalized, Insert, NamesFit, WalkFits;
    var root: Children := map[];
    var data: seq<T> := [];
    ghost var keys := Keys(config, files);
    assert BuildTrie([]) == map[] by { BuildNothing(); }
    for i := 0 to |files|
      invariant root == BuildTrie(keys[..i])
      invariant |data| == i && forall j :: 0 <= j < i ==> data[j] == files[j].1
    {
      var path := NormalizePath(config, files[i].0);
      KeyOfPath(config, files[i].0);
      assert keys[..i + 1] == keys[..i] + [keys[i]];
      BuildOneMore(keys[..i], keys[i]);
      assert WalkFits(root, Components(config, Lower(path))) by { FitsAt(keys, i); }
      root := Insert(root, Components(config, Lower(path)), i);
      data := data + [files[i].1];
    }
    assert keys[..|files|] == keys;
    obj := RofsObject(map[[] := Branch(root)], data);
  }

  lemma FitsAt(paths: seq<Path>, i: nat)
    requires NamesFit(paths) && i < |paths|
    ensures WalkFits(BuildTrie(paths[..i]), paths[i])
  {
  }

  lemma {:induction false} InsertIndices(t: Children, p: Path, i: nat, n: nat)
    requires IndicesBelow(Branch(t), n) && i < n
    ensures IndicesBelow(Branch(Insert(t, p, i)), n)
    decreases |p|
  {
    if p == [] {
    } else {
      var u := Insert(t, p, i);
      if p[0] !in t { InsertIndices(map[], p[1..], i, n); }
      else {
        assert IndicesBelow(t[p[0]], n);
        if t[p[0]].Branch? { InsertIndices(t[p[0]].children, p[1..], i, n); }
      }
      forall c | c in u ensures IndicesBelow(u[c], n) { if c != p[0] { assert IndicesBelow(t[c], n); } }
    }
  }

  lemma {:induction false} MoreIndices(node: TreeNode, n: nat, m: nat)
    requires IndicesBelow(node, n) && n <= m
    ensures IndicesBelow(node, m)
    decreases node
  {
    if node.Leaf? {
    } else {
      forall c | c in node.children ensures IndicesBelow(node.children[c], m) { MoreIndices(node.children[c], n, m); }
    }
  }

  lemma {:induction false} BuildIndices(paths: seq<Path>)
    ensures IndicesBelow(Branch(BuildTrie(paths)), |paths|)
  {
    if paths == [] {
    } else {
      BuildIndices(paths[..|paths| - 1]);
      MoreIndices(Branch(BuildTrie(paths[..|paths| - 1])), |paths| - 1, |paths|);
      InsertIndices(BuildTrie(paths[..|paths| - 1]), paths[|paths| - 1], |paths| - 1, |paths|);
    }
  }

  /** What `new` builds resolves every kept path to its own file, and nothing else. */
  lemma BuiltObjectResolves<T>(paths: seq<Path>, files: seq<T>)
    requires |paths| == |files|
    ensures var obj := RofsObject(map[[] := Branch(BuildTrie(paths))], files);
            && Wellformed(obj)
            && forall q :: Resolved(obj, q) == if q in Greedy(paths) && Greedy(paths)[q] < |files|
                then Some(files[Greedy(paths)[q]]) else None
  {
    BuildSound(paths);
    BuildIndices(paths);
    BuildIsGreedy(paths);
    var t := BuildTrie(paths);
    var root: Children := map[[] := Branch(t)];
    assert [] in root;
    forall q | q in Greedy(paths) ensures Greedy(paths)[q] < |files| {
      assert FileAt(t, q) == Some(Greedy(paths)[q]);
      IndexOfFile(t, q, |files|);
    }
  }

  // ---- merging ----

  /** `adjust_files`, entry by entry in whatever order the map yields them. */
  method AdjustFiles(node: TreeNode, offset: nat) returns (r: TreeNode)
    ensures r == Adjusted(node, offset)
    decreases node
  {
    match node
    case Leaf(i) => r := Leaf(i + offset);
    case Branch(t) =>
      var done: Children := map[];
      var todo := t.Keys;
      while todo != {}
        invariant todo <= t.Keys
        invariant done == map c | c in t && c !in todo :: Adjusted(t[c], offset)
        decreases |todo|
      {
        var name :| name in todo;
        var child := AdjustFiles(t[name], offset);
        done := done[name := child];
        todo := todo - {name};
      }
      r := Branch(done);
  }

  /** The entries of `b` outside `todo` are merged into those of `a`. */
  predicate MergedSoFar(a: Children, b: Children, todo: set<Name>, merged: Children) {
    && merged.Keys == a.Keys + (b.Keys - todo)
    && forall c :: c in merged ==>
         merged[c] == if c !in a then b[c] else if c in b && c !in todo then Merged(a[c], b[c]) else a[c]
  }

  lemma AllMerged(a: Children, b: Children, merged: Children)
    requires MergedSoFar(a, b, {}, merged)
    ensures Branch(merged) == Merged(Branch(a), Branch(b))
  {
    assert merged == Merged(Branch(a), Branch(b)).children;
  }

  lemma OneMoreMerged(a: Children, b: Children, todo: set<Name>, merged: Children, name: Name, node: TreeNode)
    requires name in todo && name in b && MergedSoFar(a, b, todo, merged)
    requires node == if name in a then Merged(a[name], b[name]) else b[name]
    ensures MergedSoFar(a, b, todo - {name}, merged[name := node])
  {
  }

  /** `BranchExt::merge`: fold the other branch's entries into this one, in whatever order they come. */
  method MergeBranch(branch: TreeNode, other: TreeNode) returns (r: TreeNode)
    requires branch.Branch? && other.Branch?
    ensures r == Merged(branch, other)
    decreases branch
  {
    hide MergedSoFar, Merged;
    var a, b := branch.children, other.children;
    var merged := a;
    var todo := b.Keys;
    assert MergedSoFar(a, b, todo, merged) by { NothingMerged(a, b); }
    while todo != {}
      invariant todo <= b.Keys && a.Keys <= merged.Keys
      invariant MergedSoFar(a, b, todo, merged)
      decreases |todo|
    {
      var name :| name in todo;
      UntouchedEntry(a, b, todo, merged, name);
      if name in merged {
        if merged[name].Branch? && b[name].Branch? {
          var child := MergeBranch(a[name], b[name]);
          OneMoreMerged(a, b, todo, merged, name, child);
          merged := merged[name := child];
        } else {
          FirstStays(merged[name], b[name]);
          OneMoreMerged(a, b, todo, merged, name, merged[name]);
          assert merged[name := merged[name]] == merged;
        }
      } else {
        OneMoreMerged(a, b, todo, merged, name, b[name]);
        merged := merged[name := b[name]];
      }
      todo := todo - {name};
    }
    AllMerged(a, b, merged);
    r := Branch(merged);
  }

  lemma NothingMerged(a: Children, b: Children)
    ensures MergedSoFar(a, b, b.Keys, a)
  {
  }

  lemma UntouchedEntry(a: Children, b: Children, todo: set<Name>, merged: Children, name: Name)
    requires name in todo && todo <= b.Keys && MergedSoFar(a, b, todo, merged)
    ensures name in merged <==> name in a
    ensures name in a ==> merged[name] == a[name]
  {
  }

  lemma FirstStays(a: TreeNode, b: TreeNode)
    requires !(a.Branch? && b.Branch?)
    ensures Merged(a, b) == a
  {
  }

  /** `RofsObject::merge`, as a function. */
  function MergeObjects<T>(a: RofsObject<T>, b: RofsObject<T>): RofsObject<T> {
    if b.root == map[] || a.root == map[] then (if a.root != map[] then a else b)
    else RofsObject(MergedChildren(a.root, AdjustedChildren(b.root, |a.files|)), a.files + b.files)
  }

  method MergeInto<T>(a: RofsObject<T>, b: RofsObject<T>) returns (r: RofsObject<T>)
    requires |a.files| + |b.files| < U32_LIMIT
    ensures r == MergeObjects(a, b)
  {
    if |b.root| == 0 || |a.root| == 0 {
      return if |a.root| != 0 then a else b;
    }
    var filesOffset := |a.files|;
    var other := AdjustFiles(Branch(b.root), filesOffset);
    assert other.children == AdjustedChildren(b.root, filesOffset);
    var root := MergeBranch(Branch(a.root), other);
    r := RofsObject(root.children, a.files + b.files);
  }

  lemma {:induction false} AdjustedIndices(node: TreeNode, n: nat, offset: nat)
    requires IndicesBelow(node, n)
    ensures IndicesBelow(Adjusted(node, offset), n + offset)
    decreases node
  {
    if node.Leaf? {
    } else {
      forall c | c in node.children ensures IndicesBelow(Adjusted(node.children[c], offset), n + offset) {
        AdjustedIndices(node.children[c], n, offset);
      }
    }
  }

  lemma {:induction false} MergedIndices(a: TreeNode, b: TreeNode, n: nat)
    requires IndicesBelow(a, n) && IndicesBelow(b, n)
    ensures IndicesBelow(Merged(a, b), n)
    decreases a
  {
    if a.Leaf? || b.Leaf? {
    } else {
      var m := Merged(a, b).children;
      forall c | c in m ensures IndicesBelow(m[c], n) {
        if c in a.children && c in b.children { MergedIndices(a.children[c], b.children[c], n); }
      }
    }
  }

  lemma MergedRoots(ia: Children, ib: Children, offset: nat)
    ensures MergedChildren(map[[] := Branch(ia)], AdjustedChildren(map[[] := Branch(ib)], offset))
            == map[[] := Branch(MergedChildren(ia, AdjustedChildren(ib, offset)))]
  {
    var a: Children, b: Children := map[[] := Branch(ia)], AdjustedChildren(map[[] := Branch(ib)], offset);
    assert b.Keys == {[]} && b[[]] == Adjusted(Branch(ib), offset) == Branch(AdjustedChildren(ib, offset));
    var m := MergedChildren(a, b);
    assert m.Keys == {[]} && m[[]] == Merged(a[[]], b[[]]);
  }

  /** The directory of a merge. */
  lemma MergedInner<T>(a: RofsObject<T>, b: RofsObject<T>)
    requires Wellformed(a) && Wellformed(b) && a.root != map[] && b.root != map[]
    ensures MergeObjects(a, b).root
            == map[[] := Branch(MergedChildren(a.Inner(), AdjustedChildren(b.Inner(), |a.files|)))]
    ensures MergeObjects(a, b).Inner() == MergedChildren(a.Inner(), AdjustedChildren(b.Inner(), |a.files|))
    ensures MergeObjects(a, b).files == a.files + b.files
  {
    hide MergedChildren, AdjustedChildren;
    MergedRoots(a.Inner(), b.Inner(), |a.files|);
    assert [] in MergeObjects(a, b).root;
  }

  lemma MergedWellformed<T>(a: RofsObject<T>, b: RofsObject<T>)
    requires Wellformed(a) && Wellformed(b)
    ensures Wellformed(MergeObjects(a, b))
  {
    if a.root != map[] && b.root != map[] {
      var n, m := |a.files|, |a.files| + |b.files|;
      MergedInner(a, b);
      AdjustedIsSound(b.Inner(), n);
      MergedIsSound(a.Inner(), AdjustedChildren(b.Inner(), n));
      MoreIndices(Branch(a.Inner()), n, m);
      AdjustedIndices(Branch(b.Inner()), |b.files|, n);
      MergedIndices(Branch(a.Inner()), Branch(AdjustedChildren(b.Inner(), n)), m);
    }
  }

  /** Every file of the first object, and those of the second that nothing in the first blocks, each still
      resolving to its own file. */
  lemma MergedResolves<T>(a: RofsObject<T>, b: RofsObject<T>, p: Path)
    requires Wellformed(a) && Wellformed(b) && Wellformed(MergeObjects(a, b)) && p != []
    ensures Resolved(MergeObjects(a, b), p)
            == if Resolved(a, p).Some? then Resolved(a, p) else if Blocked(a.Inner(), p) then None else Resolved(b, p)
  {
    if a.root == map[] {
      NothingInEmpty(p);
    } else if b.root == map[] {
      NothingInEmpty(p);
    } else {
      MergedInner(a, b);
      MergedFileAt(a.Inner(), AdjustedChildren(b.Inner(), |a.files|), p);
      AdjustedFileAt(b.Inner(), |a.files|, p);
      if HasFile(a.Inner(), p) { IndexOfFile(a.Inner(), p, |a.files|); }
    }
  }

  // ---- merging objects is associative ----

  lemma {:induction false} AdjustedTwice(node: TreeNode, m: nat, n: nat)
    ensures Adjusted(Adjusted(node, m), n) == Adjusted(node, m + n)
    decreases node
  {
    if node.Leaf? {
    } else {
      forall c | c in node.children
        ensures Adjusted(Adjusted(node.children[c], m), n) == Adjusted(node.children[c], m + n) {
        AdjustedTwice(node.children[c], m, n);
      }
    }
  }

  lemma {:induction false} AdjustedMerged(a: TreeNode, b: TreeNode, n: nat)
    ensures Adjusted(Merged(a, b), n) == Merged(Adjusted(a, n), Adjusted(b, n))
    decreases a
  {
    if a.Leaf? || b.Leaf? {
    } else {
      var l, r := Adjusted(Merged(a, b), n).children, Merged(Adjusted(a, n), Adjusted(b, n)).children;
      assert l.Keys == a.children.Keys + b.children.Keys == r.Keys;
      forall c | c in l ensures l[c] == r[c] {
        if c in a.children && c in b.children { AdjustedMerged(a.children[c], b.children[c], n); }
      }
    }
  }

  lemma AdjustedBlocked(t: Children, n: nat, p: Path)
    requires Sound(t)
    ensures Blocked(AdjustedChildren(t, n), p) <==> Blocked(t, p)
    ensures HasFile(AdjustedChildren(t, n), p) <==> HasFile(t, p)
  {
    AdjustedFileAt(t, n, p);
    if p != [] {
      AdjustedIsSound(t, n);
      BlockedIff(t, p);
      BlockedIff(AdjustedChildren(t, n), p);
      hide Blocked, FileAt, AdjustedChildren;
      forall q ensures HasFile(AdjustedChildren(t, n), q) <==> HasFile(t, q) { AdjustedFileAt(t, n, q); }
    }
  }

  lemma AdjustedShadow(a: Children, b: Children, c: Children, m: nat, n: nat)
    requires Sound(b) && Sound(c)
    ensures NoShadowedBlocks(a, AdjustedChildren(b, m), AdjustedChildren(c, n)) <==> NoShadowedBlocks(a, b, c)
  {
    hide Blocked, HasFile, AdjustedChildren, Conflict;
    forall p ensures Blocked(AdjustedChildren(b, m), p) <==> Blocked(b, p)
      ensures HasFile(AdjustedChildren(b, m), p) <==> HasFile(b, p)
      ensures HasFile(AdjustedChildren(c, n), p) <==> HasFile(c, p)
    {
      AdjustedBlocked(b, m, p);
      AdjustedBlocked(c, n, p);
    }
  }

  /** A root map: the root directory under the empty name. */
  function RootOf(t: Children): Children { map[[] := Branch(t)] }

  lemma SameRootIff(t: Children, u: Children)
    ensures RootOf(t) == RootOf(u) <==> t == u
  {
    if RootOf(t) == RootOf(u) { assert RootOf(t)[[]] == RootOf(u)[[]]; }
  }

  ghost predicate Rooted<T>(obj: RofsObject<T>) {
    Wellformed(obj) && obj.root != map[]
  }

  lemma MergedShape<T>(a: RofsObject<T>, b: RofsObject<T>)
    requires Rooted(a) && Rooted(b)
    ensures Rooted(MergeObjects(a, b))
    ensures MergeObjects(a, b).Inner() == MergedChildren(a.Inner(), AdjustedChildren(b.Inner(), |a.files|))
    ensures MergeObjects(a, b) == RofsObject(RootOf(MergeObjects(a, b).Inner()), a.files + b.files)
  {
    MergedInner(a, b);
    MergedWellformed(a, b);
    hide MergedChildren, AdjustedChildren, MergeObjects, Wellformed;
    assert [] in MergeObjects(a, b).root;
  }

  lemma AdjustedMergedTwice(b: Children, c: Children, m: nat, n: nat)
    ensures AdjustedChildren(MergedChildren(b, AdjustedChildren(c, n)), m)
            == MergedChildren(AdjustedChildren(b, m), AdjustedChildren(c, m + n))
  {
    AdjustedMerged(Branch(b), Branch(AdjustedChildren(c, n)), m);
    AdjustedTwice(Branch(c), n, m);
  }

  lemma LeftGrouping<T>(a: RofsObject<T>, b: RofsObject<T>, c: RofsObject<T>, x: Children, y: Children, z: Children)
    requires Rooted(a) && Rooted(b) && Rooted(c) && x == a.Inner()
    requires y == AdjustedChildren(b.Inner(), |a.files|) && z == AdjustedChildren(c.Inner(), |a.files| + |b.files|)
    ensures MergeObjects(MergeObjects(a, b), c)
            == RofsObject(RootOf(MergedChildren(MergedChildren(x, y), z)), a.files + b.files + c.files)
  {
    hide MergeObjects, Rooted, MergedChildren, AdjustedChildren, RootOf, RofsObject.Inner;
    MergedShape(a, b);
    MergedShape(MergeObjects(a, b), c);
  }

  lemma RightGrouping<T>(a: RofsObject<T>, b: RofsObject<T>, c: RofsObject<T>, x: Children, y: Children, z: Children)
    requires Rooted(a) && Rooted(b) && Rooted(c) && x == a.Inner()
    requires y == AdjustedChildren(b.Inner(), |a.files|) && z == AdjustedChildren(c.Inner(), |a.files| + |b.files|)
    ensures MergeObjects(a, MergeObjects(b, c))
            == RofsObject(RootOf(MergedChildren(x, MergedChildren(y, z))), a.files + (b.files + c.files))
  {
    hide MergeObjects, Rooted, MergedChildren, AdjustedChildren, RootOf, RofsObject.Inner;
    MergedShape(b, c);
    MergedShape(a, MergeObjects(b, c));
    AdjustedMergedTwice(b.Inner(), c.Inner(), |a.files|, |b.files|);
  }

  lemma RootedAssociativeIff<T>(a: RofsObject<T>, b: RofsObject<T>, c: RofsObject<T>)
    requires Rooted(a) && Rooted(b) && Rooted(c)
    ensures MergeObjects(MergeObjects(a, b), c) == MergeObjects(a, MergeObjects(b, c))
            <==> NoShadowedBlocks(a.Inner(), b.Inner(), c.Inner())
  {
    hide MergeObjects, Rooted, Sound, MergedChildren, AdjustedChildren, NoShadowedBlocks, RootOf, RofsObject.Inner;
    var x, y, z := a.Inner(), AdjustedChildren(b.Inner(), |a.files|),
        AdjustedChildren(c.Inner(), |a.files| + |b.files|);
    LeftGrouping(a, b, c, x, y, z);
    RightGrouping(a, b, c, x, y, z);
    assert a.files + b.files + c.files == a.files + (b.files + c.files);
    SameRootIff(MergedChildren(MergedChildren(x, y), z), MergedChildren(x, MergedChildren(y, z)));
    AdjustedAssociativeIff(a, b, c);
  }

  lemma AdjustedAssociativeIff<T>(a: RofsObject<T>, b: RofsObject<T>, c: RofsObject<T>)
    requires Rooted(a) && Rooted(b) && Rooted(c)
    ensures var x, y, z := a.Inner(), AdjustedChildren(b.Inner(), |a.files|),
            AdjustedChildren(c.Inner(), |a.files| + |b.files|);
            MergedChildren(MergedChildren(x, y), z) == MergedChildren(x, MergedChildren(y, z))
            <==> NoShadowedBlocks(a.Inner(), b.Inner(), c.Inner())
  {
    hide Rooted, Sound, MergedChildren, AdjustedChildren, NoShadowedBlocks, RofsObject.Inner;
    SoundIfRooted(a);
    SoundIfRooted(b);
    SoundIfRooted(c);
    AdjustedIsSound(b.Inner(), |a.files|);
    AdjustedIsSound(c.Inner(), |a.files| + |b.files|);
    MergeAssociativeIff(a.Inner(), AdjustedChildren(b.Inner(), |a.files|),
                        AdjustedChildren(c.Inner(), |a.files| + |b.files|));
    AdjustedShadow(a.Inner(), b.Inner(), c.Inner(), |a.files|, |a.files| + |b.files|);
  }

  lemma SoundIfRooted<T>(obj: RofsObject<T>)
    requires Rooted(obj)
    ensures Sound(obj.Inner())
  {
  }

  /** Reduction may group the objects of three archives either way exactly when no file of the third is kept
      out only by files of the second that the first keeps out. The default object is the identity. */
  lemma MergeObjectsAssociativeIff<T>(a: RofsObject<T>, b: RofsObject<T>, c: RofsObject<T>)
    requires Wellformed(a) && Wellformed(b) && Wellformed(c)
    ensures MergeObjects(MergeObjects(a, b), c) == MergeObjects(a, MergeObjects(b, c)) <==>
            a.root == map[] || b.root == map[] || c.root == map[] || NoShadowedBlocks(a.Inner(), b.Inner(), c.Inner())
    ensures MergeObjects(a, RofsObject(map[], [])) == a == MergeObjects(RofsObject(map[], []), a)
  {
    if a.root != map[] && b.root != map[] && c.root != map[] {
      RootedAssociativeIff(a, b, c);
    } else if b.root != map[] {
      WithEmpty(a, b, c);
    }
    hide NoShadowedBlocks, Sound, IndicesBelow;
  }

  /** Objects merge associatively when no path of the second is a proper prefix of one of the third or the
      other way round. */
  lemma PrefixFreeObjectsAssociate<T>(a: RofsObject<T>, b: RofsObject<T>, c: RofsObject<T>)
    requires Wellformed(a) && Wellformed(b) && Wellformed(c)
    requires forall p, q :: HasFile(b.Inner(), p) && HasFile(c.Inner(), q) && Conflict(q, p) ==> p == q
    ensures MergeObjects(MergeObjects(a, b), c) == MergeObjects(a, MergeObjects(b, c))
  {
    PrefixFreeHasNoShadow(a.Inner(), b.Inner(), c.Inner());
    hide Wellformed, MergeObjects, HasFile, NoShadowedBlocks;
    MergeObjectsAssociativeIff(a, b, c);
  }

  lemma WithEmpty<T>(a: RofsObject<T>, b: RofsObject<T>, c: RofsObject<T>)
    requires Wellformed(a) && Wellformed(b) && Wellformed(c) && b.root != map[] && (a.root == map[] || c.root == map[])
    ensures MergeObjects(MergeObjects(a, b), c) == MergeObjects(a, MergeObjects(b, c))
  {
    if c.root != map[] { MergedShape(b, c); }
    if a.root != map[] { MergedShape(a, b); }
  }

  // ---- the reduction over all archives ----

  /** How a parallel reduction may combine objects: any tree over them, with identities anywhere. */
  datatype Reduction<+T> = Identity | One(obj: RofsObject<T>) | Both(left: Reduction<T>, right: Reduction<T>) {
    function Objects(): seq<RofsObject<T>> {
      match this
      case Identity => []
      case One(obj) => [obj]
      case Both(l, r) => l.Objects() + r.Objects()
    }

    /** `reduce(default, merge)`. */
    function Result(): RofsObject<T> {
      match this
      case Identity => RofsObject(map[], [])
      case One(obj) => obj
      case Both(l, r) => MergeObjects(l.Result(), r.Result())
    }
  }

  predicate AllWellformed<T>(objs: seq<RofsObject<T>>) {
    forall i :: 0 <= i < |objs| ==> Wellformed(objs[i])
  }

  /** Some object has a file there. */
  ghost predicate HeldBy<T>(objs: seq<RofsObject<T>>, p: Path) {
    exists i :: 0 <= i < |objs| && HasFile(objs[i].Inner(), p)
  }

  /** The file of the first object, in order, that holds the path. */
  function First<T>(objs: seq<RofsObject<T>>, p: Path): Option<T>
    requires AllWellformed(objs)
  {
    if objs == [] then None
    else if Resolved(objs[0], p).Some? then Resolved(objs[0], p)
    else First(objs[1..], p)
  }

  /** No path held by one object is a proper prefix of a path held by another; they may share paths. */
  ghost predicate NoProperPrefixes<T>(objs: seq<RofsObject<T>>) {
    forall p, q :: HeldBy(objs, p) && HeldBy(objs, q) && p <= q ==> p == q
  }

  /** `obj` has at every path the file of the first object that holds it. */
  ghost predicate ResolvesFirst<T>(obj: RofsObject<T>, objs: seq<RofsObject<T>>)
    requires Wellformed(obj) && AllWellformed(objs)
  {
    forall p :: Resolved(obj, p) == First(objs, p)
  }

  lemma HeldByConcat<T>(xs: seq<RofsObject<T>>, ys: seq<RofsObject<T>>, p: Path)
    ensures HeldBy(xs + ys, p) <==> HeldBy(xs, p) || HeldBy(ys, p)
  {
    var s := xs + ys;
    if i :| 0 <= i < |xs| && HasFile(xs[i].Inner(), p) { assert s[i] == xs[i]; }
    if j :| 0 <= j < |ys| && HasFile(ys[j].Inner(), p) { assert s[|xs| + j] == ys[j]; }
  }

  lemma WellformedConcat<T>(xs: seq<RofsObject<T>>, ys: seq<RofsObject<T>>)
    requires AllWellformed(xs + ys)
    ensures AllWellformed(xs) && AllWellformed(ys)
  {
    hide Wellformed;
    assert forall i :: 0 <= i < |xs| ==> (xs + ys)[i] == xs[i];
    assert forall j :: 0 <= j < |ys| ==> (xs + ys)[|xs| + j] == ys[j];
  }

  lemma {:induction false} FirstConcat<T>(xs: seq<RofsObject<T>>, ys: seq<RofsObject<T>>, p: Path)
    requires AllWellformed(xs) && AllWellformed(ys) && AllWellformed(xs + ys)
    ensures First(xs + ys, p) == if First(xs, p).Some? then First(xs, p) else First(ys, p)
  {
    hide Resolved, Wellformed;
    if xs == [] {
      assert xs + ys == ys;
    } else {
      assert (xs + ys)[0] == xs[0] && (xs + ys)[1..] == xs[1..] + ys;
      FirstConcat(xs[1..], ys, p);
    }
  }

  lemma {:induction false} FirstIsHeld<T>(objs: seq<RofsObject<T>>, p: Path)
    requires AllWellformed(objs)
    ensures First(objs, p).Some? <==> HeldBy(objs, p)
  {
    if objs == [] {
    } else {
      FirstIsHeld(objs[1..], p);
      HeldByConcat([objs[0]], objs[1..], p);
      assert objs == [objs[0]] + objs[1..];
      HeldByOne(objs[0], p);
    }
  }

  lemma HeldByOne<T>(obj: RofsObject<T>, p: Path)
    ensures HeldBy([obj], p) <==> HasFile(obj.Inner(), p)
  {
    assert [obj][0] == obj;
  }

  /** No two files of a trie conflict. */
  lemma {:induction false} FilesDoNotConflict(t: Children, p: Path, q: Path)
    requires HasFile(t, p) && HasFile(t, q) && p <= q
    ensures p == q
    decreases |p|
  {
    if p == [] {
      RootIsNoFile(t);
    } else {
      assert p == [p[0]] + p[1..] && q == [q[0]] + q[1..] && q[0] == p[0];
      FileAtCons(t, p[0], p[1..]);
      FileAtCons(t, q[0], q[1..]);
      if t[p[0]].Branch? { FilesDoNotConflict(t[p[0]].children, p[1..], q[1..]); }
    }
  }

  lemma NoRootResolved<T>(obj: RofsObject<T>)
    requires Wellformed(obj)
    ensures Resolved(obj, []) == None
  {
    RootIsNoFile(obj.Inner());
  }

  /** What blocks a path held on the right is, without proper prefixes, the path itself held on the left. */
  lemma BlockedIsHeld<T>(l: RofsObject<T>, xs: seq<RofsObject<T>>, ys: seq<RofsObject<T>>, p: Path)
    requires Wellformed(l) && AllWellformed(xs) && ResolvesFirst(l, xs) && NoProperPrefixes(xs + ys)
    requires p != [] && Blocked(l.Inner(), p) && HeldBy(ys, p)
    ensures Resolved(l, p).Some?
  {
    hide Blocked, HeldBy, First, Conflict;
    BlockedIff(l.Inner(), p);
    var q :| HasFile(l.Inner(), q) && Conflict(p, q);
    assert Resolved(l, q).Some?;
    FirstIsHeld(xs, q);
    HeldByConcat(xs, ys, p);
    HeldByConcat(xs, ys, q);
    ConflictCases(p, q);
    assert p == q;
  }

  lemma ConflictCases(p: Path, q: Path)
    ensures Conflict(p, q) <==> p <= q || q <= p
  {
  }

  lemma MergeResolvesFirst<T>(l: RofsObject<T>, r: RofsObject<T>, xs: seq<RofsObject<T>>, ys: seq<RofsObject<T>>,
                              p: Path)
    requires AllWellformed(xs) && AllWellformed(ys) && AllWellformed(xs + ys) && NoProperPrefixes(xs + ys)
    requires Wellformed(l) && Wellformed(r) && Wellformed(MergeObjects(l, r))
    requires ResolvesFirst(l, xs) && ResolvesFirst(r, ys)
    ensures Resolved(MergeObjects(l, r), p) == First(xs + ys, p)
  {
    hide Blocked, HeldBy, First, Wellformed, Resolved, MergeObjects, NoProperPrefixes;
    FirstConcat(xs, ys, p);
    if p == [] {
      NoRootResolved(l);
      NoRootResolved(r);
      NoRootResolved(MergeObjects(l, r));
    } else {
      MergedResolves(l, r, p);
      FirstIsHeld(ys, p);
      if Blocked(l.Inner(), p) && HeldBy(ys, p) { BlockedIsHeld(l, xs, ys, p); }
    }
  }

  lemma PrefixesConcat<T>(xs: seq<RofsObject<T>>, ys: seq<RofsObject<T>>)
    requires NoProperPrefixes(xs + ys)
    ensures NoProperPrefixes(xs) && NoProperPrefixes(ys)
  {
    hide HeldBy;
    forall p ensures HeldBy(xs + ys, p) <==> HeldBy(xs, p) || HeldBy(ys, p) { HeldByConcat(xs, ys, p); }
  }

  lemma {:induction false} ReductionWellformed<T>(r: Reduction<T>)
    requires AllWellformed(r.Objects())
    ensures Wellformed(r.Result())
  {
    match r
    case Identity =>
    case One(obj) => assert r.Objects()[0] == obj;
    case Both(left, right) =>
      WellformedConcat(left.Objects(), right.Objects());
      ReductionWellformed(left);
      ReductionWellformed(right);
      MergedWellformed(left.Result(), right.Result());
  }

  /** However a reduction groups its objects, the first one that holds a path provides its file. */
  lemma {:induction false} ReductionResolvesFirst<T>(r: Reduction<T>)
    requires AllWellformed(r.Objects()) && NoProperPrefixes(r.Objects())
    ensures Wellformed(r.Result()) && ResolvesFirst(r.Result(), r.Objects())
  {
    ReductionWellformed(r);
    match r
    case Identity =>
      forall p ensures Resolved(r.Result(), p) == None { NothingInEmpty(p); }
    case One(obj) =>
      assert r.Objects() == [obj] && r.Objects()[1..] == [];
    case Both(left, right) =>
      var xs, ys := left.Objects(), right.Objects();
      WellformedConcat(xs, ys);
      PrefixesConcat(xs, ys);
      ReductionResolvesFirst(left);
      ReductionResolvesFirst(right);
      ReductionsMerged(left, right);
  }

  lemma ReductionsMerged<T>(left: Reduction<T>, right: Reduction<T>)
    requires AllWellformed(left.Objects()) && AllWellformed(right.Objects())
    requires AllWellformed(left.Objects() + right.Objects()) && NoProperPrefixes(left.Objects() + right.Objects())
    requires Wellformed(left.Result()) && Wellformed(right.Result()) && Wellformed(Both(left, right).Result())
    requires ResolvesFirst(left.Result(), left.Objects()) && ResolvesFirst(right.Result(), right.Objects())
    ensures AllWellformed(Both(left, right).Objects())
            && ResolvesFirst(Both(left, right).Result(), Both(left, right).Objects())
  {
    hide Wellformed, MergeObjects, First, Resolved, NoProperPrefixes, HeldBy;
    var l, r, xs, ys := left.Result(), right.Result(), left.Objects(), right.Objects();
    forall p ensures Resolved(MergeObjects(l, r), p) == First(xs + ys, p) {
      MergeResolvesFirst(l, r, xs, ys, p);
    }
  }

  /** The premise is exact: a reduction, in whatever grouping, has every path of every object, and from the
      first that holds it, if and only if no path is a proper prefix of another. */
  lemma ReductionResolvesFirstIff<T>(r: Reduction<T>)
    requires AllWellformed(r.Objects())
    ensures Wellformed(r.Result())
    ensures ResolvesFirst(r.Result(), r.Objects()) <==> NoProperPrefixes(r.Objects())
  {
    ReductionWellformed(r);
    if NoProperPrefixes(r.Objects()) {
      ReductionResolvesFirst(r);
    } else if ResolvesFirst(r.Result(), r.Objects()) {
      hide HeldBy, First, Wellformed, Reduction.Result, Reduction.Objects;
      var p, q :| HeldBy(r.Objects(), p) && HeldBy(r.Objects(), q) && p <= q && p != q;
      FirstIsHeld(r.Objects(), p);
      FirstIsHeld(r.Objects(), q);
      assert Resolved(r.Result(), p).Some? && Resolved(r.Result(), q).Some?;
      FilesDoNotConflict(r.Result().Inner(), p, q);
    }
  }

  /** Two groupings of the same objects in the same order give the same files. */
  lemma GroupingMakesNoDifference<T>(r: Reduction<T>, s: Reduction<T>, p: Path)
    requires AllWellformed(r.Objects()) && NoProperPrefixes(r.Objects()) && s.Objects() == r.Objects()
    ensures Wellformed(r.Result()) && Wellformed(s.Result()) && Resolved(r.Result(), p) == Resolved(s.Result(), p)
  {
    ReductionResolvesFirst(r);
    ReductionResolvesFirst(s);
  }

  /** No path is held twice. */
  ghost predicate Disjoint<T>(objs: seq<RofsObject<T>>) {
    forall i, j, p | 0 <= i < |objs| && 0 <= j < |objs| && HasFile(objs[i].Inner(), p) && HasFile(objs[j].Inner(), p) ::
      objs[i] == objs[j]
  }

  lemma {:induction false} OnlyHolderIsFirst<T>(objs: seq<RofsObject<T>>, i: nat, p: Path)
    requires AllWellformed(objs) && Disjoint(objs) && i < |objs| && HasFile(objs[i].Inner(), p)
    ensures First(objs, p) == Resolved(objs[i], p)
  {
    hide Wellformed;
    if HasFile(objs[0].Inner(), p) {
      assert objs[0] == objs[i];
    } else {
      assert objs[1..][i - 1] == objs[i];
      OnlyHolderIsFirst(objs[1..], i - 1, p);
    }
  }

  /** Where no two objects hold the same path, their order makes no difference either. */
  lemma ReductionIsOrderIndependent<T>(r: Reduction<T>, s: Reduction<T>, p: Path)
    requires AllWellformed(r.Objects()) && NoProperPrefixes(r.Objects()) && Disjoint(r.Objects())
    requires forall o :: o in r.Objects() <==> o in s.Objects()
    ensures Wellformed(r.Result()) && Wellformed(s.Result()) && Resolved(r.Result(), p) == Resolved(s.Result(), p)
  {
    var xs, ys := r.Objects(), s.Objects();
    SameHeld(xs, ys);
    ReductionResolvesFirst(r);
    ReductionResolvesFirst(s);
    hide Wellformed, Reduction.Result, Reduction.Objects, First, Disjoint, NoProperPrefixes;
    FirstAlike(xs, ys, p);
  }

  lemma FirstAlike<T>(xs: seq<RofsObject<T>>, ys: seq<RofsObject<T>>, p: Path)
    requires AllWellformed(xs) && Disjoint(xs) && AllWellformed(ys) && Disjoint(ys)
    requires forall o :: o in xs <==> o in ys
    ensures First(xs, p) == First(ys, p)
  {
    hide Wellformed, First, Disjoint, HasFile;
    FirstIsHeld(xs, p);
    FirstIsHeld(ys, p);
    if HeldBy(ys, p) { HeldByMore(ys, xs, p); }
    if i :| 0 <= i < |xs| && HasFile(xs[i].Inner(), p) {
      assert xs[i] in xs;
      var j :| 0 <= j < |ys| && ys[j] == xs[i];
      OnlyHolderIsFirst(xs, i, p);
      OnlyHolderIsFirst(ys, j, p);
    }
  }

  lemma SameHeld<T>(xs: seq<RofsObject<T>>, ys: seq<RofsObject<T>>)
    requires AllWellformed(xs) && Disjoint(xs) && NoProperPrefixes(xs) && forall o :: o in xs <==> o in ys
    ensures AllWellformed(ys) && Disjoint(ys) && NoProperPrefixes(ys)
    ensures forall p :: HeldBy(xs, p) <==> HeldBy(ys, p)
  {
    hide Wellformed, HasFile;
    assert forall i :: 0 <= i < |ys| ==> ys[i] in xs;
    forall p ensures HeldBy(xs, p) <==> HeldBy(ys, p) {
      if HeldBy(xs, p) { HeldByMore(xs, ys, p); }
      if HeldBy(ys, p) { HeldByMore(ys, xs, p); }
    }
  }

  lemma HeldByMore<T>(xs: seq<RofsObject<T>>, ys: seq<RofsObject<T>>, p: Path)
    requires HeldBy(xs, p) && forall o :: o in xs ==> o in ys
    ensures HeldBy(ys, p)
  {
    var i :| 0 <= i < |xs| && HasFile(xs[i].Inner(), p);
    assert xs[i] in ys;
    var j :| 0 <= j < |ys| && ys[j] == xs[i];
  }
}

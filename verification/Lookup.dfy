/** `lookup_in_dir`: from a path as typed to the file of the archive. */
module Lookup {
  import opened Bytes
  import opened Paths
  import opened Trie
  import opened Merge
  import opened Object
  import opened Flatten
  import opened Index
  import opened NodePaths

  predicate HasUppercase(s: seq<byte>) {
    exists i :: 0 <= i < |s| && 0x41 <= s[i] <= 0x5A
  }

  /** `inode_by_path_ignore_ascii_case`: the path as it is, then in lower case if that differs. */
  function FindIgnoreCase(config: Config, nodes: seq<Node>, names: seq<byte>, parent: nat, path: seq<byte>): Option<nat>
    requires InRange(nodes)
  {
    match FlatFind(nodes, names, parent, Components(config, path))
    case Some(index) => Some(index)
    case None =>
      if HasUppercase(path) then FlatFind(nodes, names, parent, Components(config, Lower(path))) else None
  }

  /** An inode as an index: `wrapping_sub` on 64 bits, then a cast to 32. */
  function IndexOfInode(inode: u64): nat {
    (inode as int - INODE_ROOT) % U64_LIMIT % U32_LIMIT
  }

  /** The inode that `lookup_in_dir` finds. */
  function InodeFound<T>(config: Config, fs: Rofs<T>, parentInode: u64, path: seq<byte>): Option<nat>
    requires InRange(fs.nodes)
  {
    match FindIgnoreCase(config, fs.nodes, fs.names, IndexOfInode(parentInode), Normalized(config, path))
    case None => None
    case Some(index) => Some(index + INODE_ROOT)
  }

  /** `lookup_in_dir`. */
  method LookupInDir<T>(config: Config, fs: Rofs<T>, parentInode: u64, path: seq<byte>) returns (r: Option<nat>)
    requires InRange(fs.nodes)
    ensures r == InodeFound(config, fs, parentInode, path)
  {
    var parent := IndexOfInode(parentInode);
    var normalized := NormalizePath(config, path);
    var found := InodeByPath(fs.nodes, fs.names, parent, Components(config, normalized));
    if found.None? && HasUppercase(normalized) {
      found := InodeByPath(fs.nodes, fs.names, parent, Components(config, Lower(normalized)));
    }
    r := if found.Some? then Some(found.value + INODE_ROOT) else None;
  }

  /** `name`. */
  function NameOfInode<T>(fs: Rofs<T>, inode: u64): Option<Name> {
    var index := (inode as int - INODE_ROOT) % U64_LIMIT;
    if index < |fs.nodes| then Some(NodeName(fs.names, fs.nodes[index])) else None
  }

  /** Every name in the trie is in lower case. */
  predicate LowerNames(node: TreeNode)
    decreases node
  {
    node.Branch? ==> forall c :: c in node.children ==> Lower(c) == c && LowerNames(node.children[c])
  }

  lemma {:induction false} FoundPathIsLower(t: TreeNode, p: Path)
    requires LowerNames(t) && Find(t, p).Some?
    ensures LowerAll(p) == p && LowerNames(Find(t, p).value)
    decreases |p|
  {
    if p == [] {
      assert LowerAll([]) == [];
    } else {
      assert LowerNames(t.children[p[0]]);
      FoundPathIsLower(t.children[p[0]], p[1..]);
      assert p == [p[0]] + p[1..];
      LowerAllCons(p[0], p[1..]);
    }
  }

  lemma NoUppercaseIsLower(s: seq<byte>)
    requires !HasUppercase(s)
    ensures Lower(s) == s
  {
  }

  // ---- every node of the arrays has a name in lower case ----

  lemma {:induction false} PlannedAreLower(plan: seq<Planned>, k: nat)
    requires ParentsOk(plan) && k < |plan| && LowerNames(Branch(plan[0].children))
    ensures LowerNames(Branch(plan[k].children))
    decreases k
  {
    if k == 0 {
    } else {
      PlannedAreLower(plan, plan[k].parent);
      assert LowerNames(plan[plan[k].parent].children[plan[k].name]);
    }
  }

  /** The trie node that a node of the arrays stands for. */
  lemma NodeStands(nodes: seq<Node>, names: seq<byte>, plan: seq<Planned>, root: Children, i: nat) returns (t: TreeNode)
    requires Flattened(nodes, names, plan, root) && i < |nodes| && LowerNames(Branch(root))
    ensures Stands(nodes, plan, i, t) && LowerNames(t)
  {
    hide Consecutive, SegmentsOk, Stands, NodeOk, DistinctEntries;
    PlanFacts(nodes, names, plan, root);
    PlanNotEmpty(plan);
    var k := SegmentOfPosition(plan, i, |plan|);
    PlannedAreLower(plan, k);
    NodeInSegment(nodes, names, plan, root, k, i);
    NodeOkNamed(nodes[i], names, plan, k);
    t := plan[k].children[NodeName(names, nodes[i])];
    OkStands(nodes, names, plan, k, i);
  }

  lemma FoundInOrBelow(nodes: seq<Node>, names: seq<byte>, plan: seq<Planned>, root: Children, parent: nat, p: Path)
    requires Flattened(nodes, names, plan, root) && InRange(nodes) && LowerNames(Branch(root))
    ensures FlatFind(nodes, names, parent, p).Some? ==> LowerAll(p) == p
  {
    hide Flattened, InRange, Stands, LowerNames;
    if p == [] {
    } else if parent < |nodes| {
      var t := NodeStands(nodes, names, plan, root, parent);
      FlatFindIsFind(nodes, names, plan, root, parent, t, p);
      if Find(t, p).Some? { FoundPathIsLower(t, p); }
    }
  }

  /** What a lookup finds depends only on the key of the path, its resolved components in lower case: from
      any parent, it is the very node that the arrays have under the key. */
  lemma LookupFindsKey(config: Config, nodes: seq<Node>, names: seq<byte>, plan: seq<Planned>, root: Children,
                       parent: nat, path: seq<byte>)
    requires Flattened(nodes, names, plan, root) && InRange(nodes) && LowerNames(Branch(root))
    ensures FindIgnoreCase(config, nodes, names, parent, Normalized(config, path))
            == FlatFind(nodes, names, parent, Key(config, path))
  {
    hide Flattened, InRange, Normalized, Components, LowerNames, FlatFind;
    var normalized, p := Normalized(config, path), Canonical(config, path);
    NormalizedComponents(config, path);
    KeyOfPath(config, path);
    FoundInOrBelow(nodes, names, plan, root, parent, p);
    if !HasUppercase(normalized) { NoUppercaseIsLower(normalized); }
  }

  /** That node exists exactly when the trie below the parent has one under the key; it stands for that one. */
  lemma LookupIsFind(config: Config, nodes: seq<Node>, names: seq<byte>, plan: seq<Planned>, root: Children,
                     parent: nat, t: TreeNode, path: seq<byte>)
    requires Flattened(nodes, names, plan, root) && InRange(nodes) && LowerNames(Branch(root))
    requires Stands(nodes, plan, parent, t)
    ensures FindIgnoreCase(config, nodes, names, parent, Normalized(config, path))
            == FlatFind(nodes, names, parent, Key(config, path))
    ensures match FlatFind(nodes, names, parent, Key(config, path))
            case None => Find(t, Key(config, path)) == None
            case Some(j) => Find(t, Key(config, path)).Some? && Stands(nodes, plan, j, Find(t, Key(config, path)).value)
  {
    hide Flattened, InRange, Stands, Normalized, LowerNames, Key;
    LookupFindsKey(config, nodes, names, plan, root, parent, path);
    FlatFindIsFind(nodes, names, plan, root, parent, t, Key(config, path));
  }

  /** The file a lookup from the root directory leads to. */
  function FileFound<T>(config: Config, fs: Rofs<T>, path: seq<byte>): Option<T>
    requires InRange(fs.nodes)
  {
    match FindIgnoreCase(config, fs.nodes, fs.names, 0, Normalized(config, path))
    case None => None
    case Some(i) =>
      if i < |fs.nodes| && fs.nodes[i].File? && fs.nodes[i].dataIndex < |fs.files|
          then Some(fs.files[fs.nodes[i].dataIndex])
      else None
  }

  lemma RootIsLower<T>(obj: RofsObject<T>)
    requires Wellformed(obj) && LowerNames(Branch(obj.Inner()))
    ensures LowerNames(Branch(obj.root))
  {
    assert Lower([]) == [];
  }

  /** A mounted index resolves every path as the object it was made from does under the path's key. */
  lemma IndexResolvesObject<T>(config: Config, obj: RofsObject<T>, fs: Rofs<T>, plan: seq<Planned>, path: seq<byte>)
    requires Wellformed(obj) && obj.root != map[] && LowerNames(Branch(obj.Inner()))
    requires Flattened(fs.nodes, fs.names, plan, obj.root) && fs.files == obj.files
    ensures InRange(fs.nodes) && FileFound(config, fs, path) == Resolved(obj, Key(config, path))
  {
    RootIsLower(obj);
    var key, inner := Key(config, path), Branch(obj.Inner());
    ResolvedAt(obj, key);
    hide *;
    FlattenedInRange(fs.nodes, fs.names, plan, obj.root);
    RootStands(fs.nodes, fs.names, plan, obj.Inner());
    LookupIsFind(config, fs.nodes, fs.names, plan, obj.root, 0, inner, path);
    FileOfNode(config, fs, plan, path, Find(inner, key));
  }

  /** The file found is that of the trie node which the node found stands for. */
  lemma FileOfNode<T>(config: Config, fs: Rofs<T>, plan: seq<Planned>, path: seq<byte>, t: Option<TreeNode>)
    requires InRange(fs.nodes)
    requires match FindIgnoreCase(config, fs.nodes, fs.names, 0, Normalized(config, path))
             case None => t == None
             case Some(j) => t.Some? && Stands(fs.nodes, plan, j, t.value)
    ensures FileFound(config, fs, path)
            == match t
               case Some(Leaf(i)) => if i < |fs.files| then Some(fs.files[i]) else None
               case _ => None
  {
    hide FindIgnoreCase, Normalized, InRange, Stands;
    if t.Some? {
      StandsKind(fs.nodes, plan, FindIgnoreCase(config, fs.nodes, fs.names, 0, Normalized(config, path)).value,
                 t.value);
    }
  }

  lemma StandsKind(nodes: seq<Node>, plan: seq<Planned>, j: nat, t: TreeNode)
    requires Stands(nodes, plan, j, t)
    ensures j < |nodes| && (nodes[j].File? <==> t.Leaf?) && (t.Leaf? ==> nodes[j].dataIndex == t.file)
  {
  }

  lemma ResolvedAt<T>(obj: RofsObject<T>, p: Path)
    requires Wellformed(obj)
    ensures obj.root != map[] ==> obj.root == map[[] := Branch(obj.Inner())]
    ensures match Find(Branch(obj.Inner()), p)
            case Some(Leaf(i)) => i < |obj.files| && Resolved(obj, p) == Some(obj.files[i])
            case _ => Resolved(obj, p) == None
  {
    if HasFile(obj.Inner(), p) { IndexOfFile(obj.Inner(), p, |obj.files|); }
  }

  // ---- the premises hold for built and merged objects ----

  predicate LowerPaths(paths: seq<Path>) {
    forall i :: 0 <= i < |paths| ==> LowerAll(paths[i]) == paths[i]
  }

  lemma {:induction false} InsertLowerNames(t: Children, p: Path, i: nat)
    requires LowerNames(Branch(t)) && LowerAll(p) == p
    ensures LowerNames(Branch(Insert(t, p, i)))
    decreases |p|
  {
    if p == [] {
    } else {
      var u := Insert(t, p, i);
      assert Lower(p[0]) == LowerAll(p)[0] == p[0];
      assert LowerAll(p[1..]) == LowerAll(p)[1..] == p[1..];
      if p[0] !in t { InsertLowerNames(map[], p[1..], i); }
      else {
        assert LowerNames(t[p[0]]);
        if t[p[0]].Branch? { InsertLowerNames(t[p[0]].children, p[1..], i); }
      }
      forall c | c in u ensures Lower(c) == c && LowerNames(u[c]) { if c != p[0] { assert LowerNames(t[c]); } }
    }
  }

  lemma {:induction false} BuildLowerNames(paths: seq<Path>)
    requires LowerPaths(paths)
    ensures LowerNames(Branch(BuildTrie(paths)))
  {
    if paths == [] {
    } else {
      BuildLowerNames(paths[..|paths| - 1]);
      InsertLowerNames(BuildTrie(paths[..|paths| - 1]), paths[|paths| - 1], |paths| - 1);
    }
  }

  lemma {:induction false} AdjustedLowerNames(node: TreeNode, offset: nat)
    requires LowerNames(node)
    ensures LowerNames(Adjusted(node, offset))
    decreases node
  {
    if node.Leaf? {
    } else {
      forall c | c in node.children ensures LowerNames(Adjusted(node.children[c], offset)) {
        AdjustedLowerNames(node.children[c], offset);
      }
    }
  }

  lemma {:induction false} MergedLowerNames(a: TreeNode, b: TreeNode)
    requires LowerNames(a) && LowerNames(b)
    ensures LowerNames(Merged(a, b))
    decreases a
  {
    if a.Leaf? || b.Leaf? {
    } else {
      var m := Merged(a, b).children;
      forall c | c in m ensures Lower(c) == c && LowerNames(m[c]) {
        if c in a.children && c in b.children { MergedLowerNames(a.children[c], b.children[c]); }
      }
    }
  }

  lemma MergedObjectLowerNames<T>(a: RofsObject<T>, b: RofsObject<T>)
    requires Wellformed(a) && Wellformed(b) && LowerNames(Branch(a.Inner())) && LowerNames(Branch(b.Inner()))
    ensures LowerNames(Branch(MergeObjects(a, b).Inner()))
  {
    if a.root != map[] && b.root != map[] {
      MergedInner(a, b);
      AdjustedLowerNames(Branch(b.Inner()), |a.files|);
      MergedLowerNames(Branch(a.Inner()), Branch(AdjustedChildren(b.Inner(), |a.files|)));
    }
  }

  lemma KeysAreLower<T>(config: Config, files: seq<(seq<byte>, T)>)
    ensures LowerPaths(Keys(config, files))
  {
    forall i | 0 <= i < |files| ensures LowerAll(Keys(config, files)[i]) == Keys(config, files)[i] {
      LowerIsIdempotent(Canonical(config, files[i].0));
    }
  }

  /** From a list of paths to the mounted index: a path finds exactly the file whose key the greedy
      prefix-free choice of the list keeps, under any spelling with the same key. */
  lemma IndexOfPaths<T>(config: Config, files: seq<(seq<byte>, T)>, data: seq<T>, fs: Rofs<T>, plan: seq<Planned>,
                        path: seq<byte>)
    requires |data| == |files| && forall i :: 0 <= i < |files| ==> data[i] == files[i].1
    requires Flattened(fs.nodes, fs.names, plan, map[[] := Branch(BuildTrie(Keys(config, files)))]) && fs.files == data
    ensures InRange(fs.nodes)
    ensures var kept, key := Greedy(Keys(config, files)), Key(config, path);
            FileFound(config, fs, path) == if key in kept && kept[key] < |files| then Some(files[kept[key]].1) else None
  {
    hide Flattened, InRange, FileFound, BuildTrie, Greedy;
    var keys := Keys(config, files);
    var obj := RofsObject(map[[] := Branch(BuildTrie(keys))], data);
    BuiltObjectResolves(keys, data);
    KeysAreLower(config, files);
    BuildLowerNames(keys);
    assert [] in obj.root;
    IndexResolvesObject(config, obj, fs, plan, path);
  }

  // ---- spellings ----

  /** Two paths that differ in one place: in ASCII case, in the kind of a separator, by an empty or `.`
      component, by a separator at either end, or by a component that the `..` behind it takes back. */
  ghost predicate Respells(config: Config, p: seq<byte>, q: seq<byte>) {
    || SameUpToCase(p, q)
    || (exists x, y, s1, s2 :: SeparatorChanged(config, p, q, x, y, s1, s2))
    || (exists x, y, s1, s2, piece :: ComponentSkipped(config, p, q, x, y, s1, s2, piece))
    || (exists s :: IsSeparator(config, s) && (p == [s] + q || p == q + [s]))
    || (exists x, y, s1, s2, s3, c :: ComponentTakenBack(config, p, q, x, y, s1, s2, s3, c))
  }

  predicate SeparatorChanged(config: Config, p: seq<byte>, q: seq<byte>, x: seq<byte>, y: seq<byte>, s1: byte,
                             s2: byte) {
    IsSeparator(config, s1) && IsSeparator(config, s2) && p == x + [s1] + y && q == x + [s2] + y
  }

  predicate ComponentSkipped(config: Config, p: seq<byte>, q: seq<byte>, x: seq<byte>, y: seq<byte>, s1: byte, s2: byte,
                             piece: Name) {
    && IsSeparator(config, s1) && IsSeparator(config, s2) && (piece == [] || piece == [0x2E])
    && p == x + [s1] + (piece + [s2] + y) && q == x + [s1] + y
  }

  predicate ComponentTakenBack(config: Config, p: seq<byte>, q: seq<byte>, x: seq<byte>, y: seq<byte>,
                               s1: byte, s2: byte, s3: byte, c: Name) {
    && IsSeparator(config, s1) && IsSeparator(config, s2) && IsSeparator(config, s3) && IsPiece(config, c)
    && c != [] && c != [0x2E] && c != [0x2E, 0x2E]
    && p == x + [s1] + (c + [s2] + ([0x2E, 0x2E] + [s3] + y)) && q == x + [s1] + y
  }

  /** One change of spelling leaves the key as it is. */
  lemma RespellingKeepsKey(config: Config, p: seq<byte>, q: seq<byte>)
    requires Respells(config, p, q)
    ensures Key(config, p) == Key(config, q)
  {
    hide Canonical, IsSeparator, IsPiece;
    if SameUpToCase(p, q) {
      FoldedAlike(p, q);
      CanonicalLower(config, p);
      CanonicalLower(config, q);
    } else if x, y, s1, s2 :| SeparatorChanged(config, p, q, x, y, s1, s2) {
      CanonicalAtSeparator(config, x, s1, y);
      CanonicalAtSeparator(config, x, s2, y);
    } else if x, y, s1, s2, piece :| ComponentSkipped(config, p, q, x, y, s1, s2, piece) {
      SkippedComponent(config, x, s1, piece, s2, y);
    } else if s :| IsSeparator(config, s) && (p == [s] + q || p == q + [s]) {
      OuterSeparator(config, s, q);
    } else {
      var x, y, s1, s2, s3, c :| ComponentTakenBack(config, p, q, x, y, s1, s2, s3, c);
      ParentUndoesComponent(config, x, s1, c, s2, s3, y, s1);
    }
  }

  /** Two spellings with the same key lead to the same inode, from any parent. */
  lemma SameKeySameInode<T>(config: Config, fs: Rofs<T>, plan: seq<Planned>, root: Children, parentInode: u64,
                            p: seq<byte>, q: seq<byte>)
    requires Flattened(fs.nodes, fs.names, plan, root) && LowerNames(Branch(root)) && Key(config, p) == Key(config, q)
    ensures InRange(fs.nodes) && InodeFound(config, fs, parentInode, p) == InodeFound(config, fs, parentInode, q)
  {
    hide Flattened, InRange, LowerNames, FindIgnoreCase, FlatFind, Key, Normalized;
    FlattenedInRange(fs.nodes, fs.names, plan, root);
    LookupFindsKey(config, fs.nodes, fs.names, plan, root, IndexOfInode(parentInode), p);
    LookupFindsKey(config, fs.nodes, fs.names, plan, root, IndexOfInode(parentInode), q);
  }

  /** From the root, different keys lead to different inodes: an inode is found under one key only, and its
      name is the last component of that key. */
  lemma SameInodeSameKey<T>(config: Config, fs: Rofs<T>, plan: seq<Planned>, root: Children, p: seq<byte>, q: seq<byte>)
    requires Flattened(fs.nodes, fs.names, plan, root) && LowerNames(Branch(root)) && |root| == 1
    requires |fs.nodes| < U32_LIMIT
    ensures InRange(fs.nodes)
    ensures InodeFound(config, fs, INODE_ROOT, p).Some?
            && InodeFound(config, fs, INODE_ROOT, p) == InodeFound(config, fs, INODE_ROOT, q)
            ==> Key(config, p) == Key(config, q)
    ensures InodeFound(config, fs, INODE_ROOT, p).Some? ==>
              && InodeFound(config, fs, INODE_ROOT, p).value < U64_LIMIT
              && (Key(config, p) != [] ==>
                    NameOfInode(fs, InodeFound(config, fs, INODE_ROOT, p).value) == Some(Last(Key(config, p))))
  {
    hide Flattened, InRange, LowerNames, FindIgnoreCase, FlatFind, Key, Normalized;
    FlattenedInRange(fs.nodes, fs.names, plan, root);
    LookupFindsKey(config, fs.nodes, fs.names, plan, root, 0, p);
    LookupFindsKey(config, fs.nodes, fs.names, plan, root, 0, q);
    var found := FlatFind(fs.nodes, fs.names, 0, Key(config, p));
    if found.Some? {
      if found == FlatFind(fs.nodes, fs.names, 0, Key(config, q)) {
        FoundOnce(fs.nodes, fs.names, plan, root, Key(config, p), Key(config, q), found.value);
      }
      if Key(config, p) == [] {
        FoundAtOnce(fs.nodes, fs.names);
      } else {
        var i := FoundNode(fs.nodes, fs.names, plan, root, 0, Key(config, p), found.value);
      }
    }
  }

  lemma FoundAtOnce(nodes: seq<Node>, names: seq<byte>)
    requires InRange(nodes)
    ensures FlatFind(nodes, names, 0, []) == Some(0)
  {
  }

  /** However many changes of spelling lie between two paths, they lead to the same inode, from any parent. */
  lemma {:induction false} RespellingsFindSameInode<T>(config: Config, fs: Rofs<T>, plan: seq<Planned>, root: Children,
                                                       parentInode: u64, chain: seq<seq<byte>>)
    requires Flattened(fs.nodes, fs.names, plan, root) && LowerNames(Branch(root))
    requires chain != [] && forall i :: 0 <= i < |chain| - 1 ==> Respells(config, chain[i], chain[i + 1])
    ensures InRange(fs.nodes)
    ensures InodeFound(config, fs, parentInode, chain[0]) == InodeFound(config, fs, parentInode, chain[|chain| - 1])
    decreases |chain|
  {
    hide Flattened, InRange, LowerNames, InodeFound, Respells, Key;
    if |chain| == 1 {
      FlattenedInRange(fs.nodes, fs.names, plan, root);
    } else {
      var front := chain[..|chain| - 1];
      forall i | 0 <= i < |front| - 1 ensures Respells(config, front[i], front[i + 1]) {
        assert Respells(config, chain[i], chain[i + 1]);
      }
      RespellingsFindSameInode(config, fs, plan, root, parentInode, front);
      assert Respells(config, chain[|chain| - 2], chain[|chain| - 2 + 1]);
      RespellingKeepsKey(config, chain[|chain| - 2], chain[|chain| - 1]);
      SameKeySameInode(config, fs, plan, root, parentInode, chain[|chain| - 2], chain[|chain| - 1]);
    }
  }
}

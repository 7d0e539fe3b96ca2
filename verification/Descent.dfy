/** Lookups one after another: each starts from the inode that the one before has found. */
module Descent {
  import opened Bytes
  import opened Paths
  import opened Spelling
  import Eytzinger
  import opened Trie
  import opened Object
  import opened Flatten
  import opened Index
  import opened NodePaths
  import opened Lookup

  lemma {:induction false} FindConcat(nodes: seq<Node>, names: seq<byte>, index: nat, p: Path, q: Path)
    requires InRange(nodes)
    ensures FlatFind(nodes, names, index, p + q)
            == match FlatFind(nodes, names, index, p)
               case None => None
               case Some(j) => FlatFind(nodes, names, j, q)
    decreases |p|
  {
    hide Eytzinger.Search;
    if p == [] {
      assert p + q == q;
    } else {
      assert (p + q)[0] == p[0] && (p + q)[1..] == p[1..] + q;
      if index < |nodes| && nodes[index].Dir? {
        var start, end := nodes[index].childIndex, nodes[index].childIndex + nodes[index].childCount;
        var k := Eytzinger.Search(SegmentNames(nodes[start..end], names), p[0]);
        if k.Some? { FindConcat(nodes, names, start + k.value, p[1..], q); }
      }
    }
  }

  /** What is found is a node, or where the search began. */
  lemma FoundIsNode(nodes: seq<Node>, names: seq<byte>, plan: seq<Planned>, root: Children, index: nat, p: Path)
    requires Flattened(nodes, names, plan, root) && InRange(nodes)
    ensures FlatFind(nodes, names, index, p).Some? ==>
              FlatFind(nodes, names, index, p).value < |nodes| || FlatFind(nodes, names, index, p).value == index
  {
    if p != [] && FlatFind(nodes, names, index, p).Some? {
      hide Flattened, InRange, FlatFind;
      var i := FoundNode(nodes, names, plan, root, index, p, FlatFind(nodes, names, index, p).value);
    }
  }

  /** A lookup from the root finds inode `i + 1` exactly when node `i` stands under the key. */
  lemma LookupFromRoot<T>(config: Config, fs: Rofs<T>, plan: seq<Planned>, root: Children, p: seq<byte>, i: nat)
    requires Flattened(fs.nodes, fs.names, plan, root) && LowerNames(Branch(root)) && InRange(fs.nodes)
    ensures InodeFound(config, fs, 1, p) == Some(i + 1) <==> FlatFind(fs.nodes, fs.names, 0, Key(config, p)) == Some(i)
    ensures InodeFound(config, fs, 1, p) == None <==> FlatFind(fs.nodes, fs.names, 0, Key(config, p)) == None
  {
    hide Flattened, InRange, LowerNames, FindIgnoreCase, FlatFind, Key, Normalized;
    LookupFindsKey(config, fs.nodes, fs.names, plan, root, 0, p);
  }

  /** A lookup from an inode that a lookup has found finds what one lookup of both paths, one behind the
      other, finds. */
  lemma LookupsCompose<T>(config: Config, fs: Rofs<T>, plan: seq<Planned>, root: Children, p: seq<byte>, q: seq<byte>,
                          j: nat, i: nat)
    requires Flattened(fs.nodes, fs.names, plan, root) && LowerNames(Branch(root)) && InRange(fs.nodes)
    requires |fs.nodes| < 0x1_0000_0000 && InodeFound(config, fs, 1, p) == Some(j)
    ensures j < 0x1_0000_0000_0000_0000
    ensures InodeFound(config, fs, j, q) == Some(i + 1)
            <==> FlatFind(fs.nodes, fs.names, 0, Key(config, p) + Key(config, q)) == Some(i)
    ensures InodeFound(config, fs, j, q) == None
            <==> FlatFind(fs.nodes, fs.names, 0, Key(config, p) + Key(config, q)) == None
  {
    hide Flattened, InRange, LowerNames, FindIgnoreCase, FlatFind, Key, Normalized;
    LookupFindsKey(config, fs.nodes, fs.names, plan, root, 0, p);
    FoundIsNode(fs.nodes, fs.names, plan, root, 0, Key(config, p));
    FindConcat(fs.nodes, fs.names, 0, Key(config, p), Key(config, q));
    LookupFindsKey(config, fs.nodes, fs.names, plan, root, j - 1, q);
  }

  /** The same, as paths: a lookup of `p/q` is a lookup of `p`, and of `q` from there, when `q` does not climb
      above where it starts. */
  lemma LookupOfJoined<T>(config: Config, fs: Rofs<T>, plan: seq<Planned>, root: Children, p: seq<byte>, sep: byte,
                          q: seq<byte>, j: nat)
    requires Flattened(fs.nodes, fs.names, plan, root) && LowerNames(Branch(root)) && InRange(fs.nodes)
    requires |fs.nodes| < 0x1_0000_0000 && InodeFound(config, fs, 1, p) == Some(j)
    requires IsSeparator(config, sep) && [0x2E, 0x2E] !in Split(config, q)
    ensures j < 0x1_0000_0000_0000_0000
    ensures InodeFound(config, fs, j, q) == InodeFound(config, fs, 1, p + [sep] + q)
  {
    hide Flattened, InRange, LowerNames, FlatFind, Key, InodeFound;
    LookupsCompose(config, fs, plan, root, p, q, j, 0);
    KeyOfJoined(config, p, sep, q);
    var key := Key(config, p) + Key(config, q);
    LookupFromRoot(config, fs, plan, root, p + [sep] + q, 0);
    var found := FlatFind(fs.nodes, fs.names, 0, key);
    if found.Some? {
      LookupsCompose(config, fs, plan, root, p, q, j, found.value);
      LookupFromRoot(config, fs, plan, root, p + [sep] + q, found.value);
    }
  }

  lemma KeyOfJoined(config: Config, p: seq<byte>, sep: byte, q: seq<byte>)
    requires IsSeparator(config, sep) && [0x2E, 0x2E] !in Split(config, q)
    ensures Key(config, p + [sep] + q) == Key(config, p) + Key(config, q)
  {
    CanonicalAtSeparator(config, p, sep, q);
    ResolveWithoutDotDot(Canonical(config, p), Split(config, q));
    ResolveWithoutDotDot([], Split(config, q));
    assert [] + WithoutSkipped(Split(config, q)) == WithoutSkipped(Split(config, q));
    LowerAllConcat(Canonical(config, p), Canonical(config, q));
  }

  lemma LowerAllConcat(a: Path, b: Path)
    ensures LowerAll(a + b) == LowerAll(a) + LowerAll(b)
  {
  }

  /** The empty path and `.` find the root directory from the root directory, and any directory from itself. */
  lemma NothingFindsItself<T>(config: Config, fs: Rofs<T>, inode: u64)
    requires InRange(fs.nodes) && 0 < inode < 0x1_0000_0000
    ensures InodeFound(config, fs, inode, []) == Some(inode) == InodeFound(config, fs, inode, [0x2E])
  {
    hide InRange;
    PieceIsOne(config, [0x2E]);
    var dot: seq<Name> := [[0x2E]];
    assert dot[1..] == [];
    assert Components(config, [0x2E]) == [];
  }

  /** A parent inode counts modulo 2^32. */
  lemma ParentWraps<T>(config: Config, fs: Rofs<T>, inode: u64, p: seq<byte>)
    requires InRange(fs.nodes) && 0 < inode && inode + 0x1_0000_0000 < 0x1_0000_0000_0000_0000
    ensures InodeFound(config, fs, inode + 0x1_0000_0000, p) == InodeFound(config, fs, inode, p)
  {
    hide FindIgnoreCase, Normalized;
  }

  /** From an inode of no node, inode 0 among them, nothing is found but that inode's own place. */
  lemma NoNodeFindsNothing<T>(config: Config, fs: Rofs<T>, plan: seq<Planned>, root: Children, inode: u64, p: seq<byte>)
    requires Flattened(fs.nodes, fs.names, plan, root) && LowerNames(Branch(root)) && InRange(fs.nodes)
    requires |fs.nodes| < 0x1_0000_0000 && (inode == 0 || |fs.nodes| < inode <= 0x1_0000_0000) && Key(config, p) != []
    ensures InodeFound(config, fs, inode, p) == None
  {
    hide Flattened, InRange, LowerNames, FindIgnoreCase, Key, Normalized;
    var parent := if inode == 0 then 0xFFFF_FFFF else inode - 1;
    LookupFindsKey(config, fs.nodes, fs.names, plan, root, parent, p);
  }

  /** `name` of what a lookup has found; the root directory's is empty. */
  lemma NameOfFound<T>(config: Config, fs: Rofs<T>, plan: seq<Planned>, inner: Children, p: seq<byte>, j: nat)
    requires Flattened(fs.nodes, fs.names, plan, map[[] := Branch(inner)]) && LowerNames(Branch(inner))
    requires InRange(fs.nodes) && |fs.nodes| < 0x1_0000_0000 && InodeFound(config, fs, 1, p) == Some(j)
    ensures 0 < j <= |fs.nodes|
    ensures NameOfInode(fs, j)
            == Some(if Key(config, p) == [] then [] else Key(config, p)[|Key(config, p)| - 1])
  {
    hide Flattened, InRange, LowerNames, FlatFind, Key, InodeFound, NameOfInode, NodeName, Last;
    var root: Children := map[[] := Branch(inner)];
    LowerRoot(inner);
    RootNode(fs, plan, inner);
    FoundInode(config, fs, plan, root, p, j);
    FoundIsNode(fs.nodes, fs.names, plan, root, 0, Key(config, p));
    NameAt(fs, j);
    if Key(config, p) == [] {
      FoundAtOnce(fs.nodes, fs.names);
    } else {
      LastOf(Key(config, p));
      var i := FoundNode(fs.nodes, fs.names, plan, root, 0, Key(config, p), j - 1);
      assert NodeName(fs.names, fs.nodes[j - 1]) == Key(config, p)[|Key(config, p)| - 1];
      assert j <= |fs.nodes|;
      assert NameOfInode(fs, j) == Some(NodeName(fs.names, fs.nodes[j - 1]));
    }
  }

  lemma LowerRoot(inner: Children)
    requires LowerNames(Branch(inner))
    ensures LowerNames(Branch(map[[] := Branch(inner)]))
  {
    assert Lower([]) == [];
  }

  lemma LastOf(p: Path)
    requires p != []
    ensures Last(p) == p[|p| - 1]
  {
  }

  lemma NameAt<T>(fs: Rofs<T>, inode: nat)
    ensures 0 < inode <= |fs.nodes| && inode < U64_LIMIT ==>
              NameOfInode(fs, inode) == Some(NodeName(fs.names, fs.nodes[inode - 1]))
  {
  }

  lemma FoundInode<T>(config: Config, fs: Rofs<T>, plan: seq<Planned>, root: Children, p: seq<byte>, j: nat)
    requires Flattened(fs.nodes, fs.names, plan, root) && LowerNames(Branch(root)) && InRange(fs.nodes)
    requires InodeFound(config, fs, 1, p) == Some(j)
    ensures j > 0 && FlatFind(fs.nodes, fs.names, 0, Key(config, p)) == Some(j - 1)
  {
    hide Flattened, InRange, LowerNames, FindIgnoreCase, FlatFind, Key, Normalized;
    LookupFindsKey(config, fs.nodes, fs.names, plan, root, 0, p);
  }

  lemma RootNode<T>(fs: Rofs<T>, plan: seq<Planned>, inner: Children)
    requires Flattened(fs.nodes, fs.names, plan, map[[] := Branch(inner)])
    ensures |fs.nodes| > 0 && NodeName(fs.names, fs.nodes[0]) == []
  {
    var root: Children := map[[] := Branch(inner)];
    PlanFacts(fs.nodes, fs.names, plan, root);
    FirstStartsAtZero(plan);
    hide Flattened, Consecutive, NodeOk;
    assert |root| == 1;
    NodeInSegment(fs.nodes, fs.names, plan, root, 0, 0);
    RootEntry(fs.nodes[0], fs.names, plan, inner);
  }

  /** There is no name for an inode of no node. */
  lemma NoNameBeyond<T>(fs: Rofs<T>, inode: u64)
    ensures NameOfInode(fs, inode).Some? <==> 1 <= inode <= |fs.nodes| || (inode == 0 && |fs.nodes| >= U64_LIMIT)
  {
  }
}

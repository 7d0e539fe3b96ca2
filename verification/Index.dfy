/** Lookup over the flattened arrays, and its agreement with the trie and with the paths it was built
    from. */
module Index {
  import opened Bytes
  import opened Paths
  import Eytzinger
  import opened Trie
  import opened Flatten

  const INODE_ROOT := 1

  /** Every directory's children lie inside the node array. */
  predicate InRange(nodes: seq<Node>) {
    forall i :: 0 <= i < |nodes| && nodes[i].Dir? ==> nodes[i].childIndex + nodes[i].childCount <= |nodes|
  }

  /** `inode_by_path`, component by component. */
  function FlatFind(nodes: seq<Node>, names: seq<byte>, index: nat, p: Path): Option<nat>
    requires InRange(nodes)
    decreases |p|
  {
    if p == [] then Some(index)
    else if index >= |nodes| || nodes[index].File? then None
    else
      var start, end := nodes[index].childIndex, nodes[index].childIndex + nodes[index].childCount;
      match Eytzinger.Search(SegmentNames(nodes[start..end], names), p[0])
      case None => None
      case Some(k) => FlatFind(nodes, names, start + k, p[1..])
  }

  method InodeByPath(nodes: seq<Node>, names: seq<byte>, parent: nat, components: Path) returns (r: Option<nat>)
    requires InRange(nodes)
    ensures r == FlatFind(nodes, names, parent, components)
  {
    if components == [] {
      return Some(parent);
    }
    var index: nat := parent;
    var i := 0;
    while i < |components|
      invariant i <= |components|
      invariant FlatFind(nodes, names, index, components[i..]) == FlatFind(nodes, names, parent, components)
    {
      var component := components[i];
      assert components[i..][0] == component && components[i..][1..] == components[i + 1..];
      if index >= |nodes| || nodes[index].File? {
        return None;
      }
      var start, end := nodes[index].childIndex, nodes[index].childIndex + nodes[index].childCount;
      var found := Eytzinger.Search(SegmentNames(nodes[start..end], names), component);
      if found.None? {
        return None;
      }
      index := found.value + start;
      i := i + 1;
    }
    r := Some(index);
  }

  /** The node at `index` stands for a trie node: same kind, same file, same children. */
  ghost predicate Stands(nodes: seq<Node>, plan: seq<Planned>, index: nat, t: TreeNode) {
    && index < |nodes|
    && match t
       case Leaf(i) => nodes[index].File? && nodes[index].dataIndex == i
       case Branch(u) =>
         && nodes[index].Dir? && nodes[index].childCount == |u|
         && exists k :: 0 <= k < |plan| && plan[k].children == u && plan[k].start == nodes[index].childIndex
  }

  lemma {:induction false} EndsInOrder(plan: seq<Planned>, k: nat, m: nat)
    requires Consecutive(plan) && k < m < |plan|
    ensures plan[k].End() <= plan[m].start
    decreases m - k
  {
    if m > k + 1 { EndsInOrder(plan, k, m - 1); }
  }

  /** A position belongs to the segment of some planned directory. */
  lemma {:induction false} SegmentOfPosition(plan: seq<Planned>, i: nat, n: nat) returns (k: nat)
    requires Consecutive(plan) && 0 < n <= |plan| && i < plan[n - 1].End()
    ensures k < n && plan[k].start <= i < plan[k].End()
    decreases n
  {
    if plan[n - 1].start <= i { k := n - 1; } else { k := SegmentOfPosition(plan, i, n - 1); }
  }

  lemma SegmentHolds(nodes: seq<Node>, names: seq<byte>, plan: seq<Planned>, root: Children, k: nat)
    requires Flattened(nodes, names, plan, root) && k < |plan|
    ensures plan[k].End() <= |nodes| && SegmentOk(nodes[plan[k].start..plan[k].End()], names, plan, k)
  {
  }

  lemma NodeInSegment(nodes: seq<Node>, names: seq<byte>, plan: seq<Planned>, root: Children, k: nat, i: nat)
    requires Flattened(nodes, names, plan, root) && k < |plan| && plan[k].start <= i < plan[k].End()
    ensures i < |nodes| && NodeOk(nodes[i], names, plan, k)
  {
    hide NodeOk, Flattened, Eytzinger.IsLayout;
    SegmentHolds(nodes, names, plan, root, k);
    var segment := nodes[plan[k].start..plan[k].End()];
    assert segment[i - plan[k].start] == nodes[i];
  }

  lemma PlanFacts(nodes: seq<Node>, names: seq<byte>, plan: seq<Planned>, root: Children)
    requires Flattened(nodes, names, plan, root)
    ensures Consecutive(plan) && plan[0].children == root && |nodes| == plan[|plan| - 1].End()
  {
  }

  /** The two planned directories behind a directory node: the one it is in, and its own. */
  lemma PlannedOfNode(nodes: seq<Node>, names: seq<byte>, plan: seq<Planned>, root: Children, i: nat)
      returns (own: nat, m: nat)
    requires Flattened(nodes, names, plan, root) && i < |nodes| && nodes[i].Dir?
    ensures own < m < |plan| && plan[own].start <= i < plan[own].End()
    ensures plan[m].start == nodes[i].childIndex && |plan[m].children| == nodes[i].childCount
    ensures plan[m].parent == own && plan[m].name == NodeName(names, nodes[i])
  {
    hide Flattened, SegmentOk, Consecutive;
    PlanFacts(nodes, names, plan, root);
    PlanNotEmpty(plan);
    own := SegmentOfPosition(plan, i, |plan|);
    NodeInSegment(nodes, names, plan, root, own, i);
    m := PlannedOfEntry(nodes[i], names, plan, own);
  }

  lemma PlanNotEmpty(plan: seq<Planned>)
    requires Consecutive(plan)
    ensures |plan| > 0
  {
  }

  lemma PlannedOfEntry(x: Node, names: seq<byte>, plan: seq<Planned>, own: nat) returns (m: nat)
    requires own < |plan| && NodeOk(x, names, plan, own) && x.Dir?
    ensures own < m < |plan| && plan[m].start == x.childIndex && |plan[m].children| == x.childCount
    ensures plan[m].parent == own && plan[m].name == NodeName(names, x)
  {
    var u := plan[own].children[NodeName(names, x)].children;
    m :| own < m < |plan| && plan[m] == Planned(u, x.childIndex, own, NodeName(names, x));
  }

  lemma FlattenedInRange(nodes: seq<Node>, names: seq<byte>, plan: seq<Planned>, root: Children)
    requires Flattened(nodes, names, plan, root)
    ensures InRange(nodes)
  {
    hide Flattened, SegmentOk, Consecutive;
    PlanFacts(nodes, names, plan, root);
    forall i | 0 <= i < |nodes| && nodes[i].Dir? ensures nodes[i].childIndex + nodes[i].childCount <= |nodes| {
      var own, m := PlannedOfNode(nodes, names, plan, root, i);
      if m < |plan| - 1 { EndsInOrder(plan, m, |plan| - 1); }
    }
  }

  lemma OkStands(nodes: seq<Node>, names: seq<byte>, plan: seq<Planned>, k: nat, i: nat)
    requires k < |plan| && i < |nodes| && NodeOk(nodes[i], names, plan, k)
    ensures Stands(nodes, plan, i, plan[k].children[NodeName(names, nodes[i])])
  {
  }

  /** Searching a directory's segment finds exactly its entries. */
  lemma DescendOne(nodes: seq<Node>, names: seq<byte>, plan: seq<Planned>, root: Children, index: nat, u: Children,
                   c: Name)
    requires Flattened(nodes, names, plan, root) && InRange(nodes) && Stands(nodes, plan, index, Branch(u))
    ensures var start, end := nodes[index].childIndex, nodes[index].childIndex + nodes[index].childCount;
            match Eytzinger.Search(SegmentNames(nodes[start..end], names), c)
            case None => c !in u
            case Some(j) => c in u && Stands(nodes, plan, start + j, u[c])
  {
    hide Stands, Eytzinger.Search, Flattened, NodeOk, SegmentOk;
    var k := PlanOf(nodes, plan, index, u);
    SegmentHolds(nodes, names, plan, root, k);
    var start, end := plan[k].start, plan[k].End();
    var keys := SegmentNames(nodes[start..end], names);
    SegmentKeys(nodes[start..end], names, plan, k);
    Eytzinger.SearchIsRight(keys, c);
    if Eytzinger.Search(keys, c).Some? {
      EntryAt(nodes, names, plan, root, k, Eytzinger.Search(keys, c).value, c);
    }
  }

  lemma EntryAt(nodes: seq<Node>, names: seq<byte>, plan: seq<Planned>, root: Children, k: nat, j: nat, c: Name)
    requires Flattened(nodes, names, plan, root) && k < |plan| && plan[k].End() <= |nodes| && j < |plan[k].children|
    requires SegmentNames(nodes[plan[k].start..plan[k].End()], names)[j] == c
    ensures c in plan[k].children && Stands(nodes, plan, plan[k].start + j, plan[k].children[c])
  {
    hide Stands, Flattened, NodeOk;
    var i := plan[k].start + j;
    assert nodes[plan[k].start..plan[k].End()][j] == nodes[i];
    NodeInSegment(nodes, names, plan, root, k, i);
    NodeOkNamed(nodes[i], names, plan, k);
    OkStands(nodes, names, plan, k, i);
  }

  lemma SegmentKeys(segment: seq<Node>, names: seq<byte>, plan: seq<Planned>, k: nat)
    requires k < |plan| && SegmentOk(segment, names, plan, k)
    ensures forall c :: c in plan[k].children <==> c in SegmentNames(segment, names)
    ensures Eytzinger.IsLayout(SegmentNames(segment, names)) && |segment| == |plan[k].children|
  {
    hide Eytzinger.IsLayout;
    forall i | 0 <= i < |segment| ensures SegmentNames(segment, names)[i] in plan[k].children {
      NodeOkNamed(segment[i], names, plan, k);
    }
  }

  lemma PlanOf(nodes: seq<Node>, plan: seq<Planned>, index: nat, u: Children) returns (k: nat)
    requires Stands(nodes, plan, index, Branch(u))
    ensures k < |plan| && plan[k].children == u && index < |nodes| && nodes[index].Dir?
    ensures plan[k].start == nodes[index].childIndex
            && plan[k].End() == nodes[index].childIndex + nodes[index].childCount
  {
    k :| 0 <= k < |plan| && plan[k].children == u && plan[k].start == nodes[index].childIndex;
  }

  /** Lookup over the arrays is lookup in the trie: a node is found exactly when the trie has one, and it
      has the same kind, the same file and the same children. */
  lemma {:induction false} FlatFindIsFind(nodes: seq<Node>, names: seq<byte>, plan: seq<Planned>, root: Children,
                                          index: nat, t: TreeNode, p: Path)
    requires Flattened(nodes, names, plan, root) && InRange(nodes) && Stands(nodes, plan, index, t)
    ensures match FlatFind(nodes, names, index, p)
            case None => Find(t, p) == None
            case Some(j) => Find(t, p).Some? && Stands(nodes, plan, j, Find(t, p).value)
    decreases |p|
  {
    hide Flattened, InRange, Eytzinger.Search;
    if p != [] && t.Branch? {
      var u, c := t.children, p[0];
      DescendOne(nodes, names, plan, root, index, u, c);
      var start, end := nodes[index].childIndex, nodes[index].childIndex + nodes[index].childCount;
      SegmentRange(nodes, index);
      match Eytzinger.Search(SegmentNames(nodes[start..end], names), c)
      case None =>
      case Some(j) => FlatFindIsFind(nodes, names, plan, root, start + j, u[c], p[1..]);
    }
  }

  lemma SegmentRange(nodes: seq<Node>, index: nat)
    requires InRange(nodes) && index < |nodes| && nodes[index].Dir?
    ensures nodes[index].childIndex + nodes[index].childCount <= |nodes|
  {
  }

  /** The first node stands for the root directory. */
  lemma RootStands(nodes: seq<Node>, names: seq<byte>, plan: seq<Planned>, inner: Children)
    requires Flattened(nodes, names, plan, map[[] := Branch(inner)])
    ensures Stands(nodes, plan, 0, Branch(inner))
  {
    var root: Children := map[[] := Branch(inner)];
    PlanFacts(nodes, names, plan, root);
    FirstStartsAtZero(plan);
    hide Flattened, Consecutive, NodeOk, Stands;
    assert |root| == 1;
    NodeInSegment(nodes, names, plan, root, 0, 0);
    RootEntry(nodes[0], names, plan, inner);
    OkStands(nodes, names, plan, 0, 0);
  }

  /** The only entry of the root map is the root directory. */
  lemma RootEntry(x: Node, names: seq<byte>, plan: seq<Planned>, inner: Children)
    requires |plan| > 0 && plan[0].children == map[[] := Branch(inner)] && NodeOk(x, names, plan, 0)
    ensures NodeName(names, x) in plan[0].children && plan[0].children[NodeName(names, x)] == Branch(inner)
  {
  }

  // ---- the shape of the arrays ----

  /** The place of a planned directory's own node. */
  lemma NodeOfPlanned(nodes: seq<Node>, names: seq<byte>, plan: seq<Planned>, root: Children, k: nat) returns (i: nat)
    requires Flattened(nodes, names, plan, root) && 0 < k < |plan|
    ensures i < |nodes| && nodes[i].Dir? && nodes[i].childIndex == plan[k].start
            && nodes[i].childCount == |plan[k].children|
    ensures i < plan[k].start
  {
    hide Flattened, NodeOk, SegmentOk, Eytzinger.IsLayout, ParentsOk, DistinctEntries, Consecutive;
    var own, name := plan[k].parent, plan[k].name;
    ParentOf(nodes, names, plan, root, k);
    SegmentHolds(nodes, names, plan, root, own);
    var start := plan[own].start;
    var segment := nodes[start..plan[own].End()];
    SegmentKeys(segment, names, plan, own);
    assert name in SegmentNames(segment, names);
    var j :| 0 <= j < |segment| && SegmentNames(segment, names)[j] == name;
    i := start + j;
    assert segment[j] == nodes[i];
    NodeInSegment(nodes, names, plan, root, own, i);
    NodeOfEntry(nodes[i], names, plan, k);
    EndsInOrder(plan, own, k);
  }

  lemma ParentOf(nodes: seq<Node>, names: seq<byte>, plan: seq<Planned>, root: Children, k: nat)
    requires Flattened(nodes, names, plan, root) && 0 < k < |plan|
    ensures Consecutive(plan) && ParentsOk(plan) && DistinctEntries(plan)
    ensures plan[k].parent < k && plan[k].name in plan[plan[k].parent].children
    ensures plan[plan[k].parent].children[plan[k].name] == Branch(plan[k].children)
  {
  }

  lemma NodeOfEntry(x: Node, names: seq<byte>, plan: seq<Planned>, k: nat)
    requires ParentsOk(plan) && DistinctEntries(plan) && 0 < k < |plan|
    requires NodeOk(x, names, plan, plan[k].parent) && NodeName(names, x) == plan[k].name
    ensures x.Dir? && x.childIndex == plan[k].start && x.childCount == |plan[k].children|
  {
    var own, name := plan[k].parent, plan[k].name;
    var m :| own < m < |plan| && plan[m] == Planned(plan[k].children, x.childIndex, own, name);
    assert m == k;
  }

  /** The children's segments of the directories partition every node but the first, and each lies
      strictly after its directory. */
  lemma SegmentsPartition(nodes: seq<Node>, names: seq<byte>, plan: seq<Planned>, root: Children, n: nat)
      returns (i: nat)
    requires Flattened(nodes, names, plan, root) && |root| == 1 && 0 < n < |nodes|
    ensures i < n && nodes[i].Dir? && nodes[i].childIndex <= n < nodes[i].childIndex + nodes[i].childCount
    ensures forall j | 0 <= j < |nodes| && nodes[j].Dir? ::
              nodes[j].childIndex <= n < nodes[j].childIndex + nodes[j].childCount ==> j == i
    ensures forall j :: 0 <= j < |nodes| && nodes[j].Dir? ==> j < nodes[j].childIndex
  {
    hide Flattened, Consecutive;
    PlanFacts(nodes, names, plan, root);
    PlanNotEmpty(plan);
    var k := SegmentOfPosition(plan, n, |plan|);
    FirstStartsAtZero(plan);
    i := NodeOfPlanned(nodes, names, plan, root, k);
    forall j | 0 <= j < |nodes| && nodes[j].Dir?
      ensures j < nodes[j].childIndex
      ensures nodes[j].childIndex <= n < nodes[j].childIndex + nodes[j].childCount ==> j == i
    {
      var own, m := PlannedOfNode(nodes, names, plan, root, j);
      EndsInOrder(plan, own, m);
      if nodes[j].childIndex <= n < nodes[j].childIndex + nodes[j].childCount {
        SameSegment(plan, k, m, n);
        var own2, m2 := PlannedOfNode(nodes, names, plan, root, i);
        SameSegment(plan, k, m2, n);
        SameNameSamePlace(nodes, names, plan, root, own, i, j);
      }
    }
  }

  lemma FirstStartsAtZero(plan: seq<Planned>)
    requires Consecutive(plan)
    ensures |plan| > 0 && plan[0].start == 0
  {
  }

  lemma SameSegment(plan: seq<Planned>, k: nat, m: nat, n: nat)
    requires Consecutive(plan) && k < |plan| && m < |plan|
    requires plan[k].start <= n < plan[k].End() && plan[m].start <= n < plan[m].End()
    ensures k == m
  {
    if m < k { EndsInOrder(plan, m, k); }
    if k < m { EndsInOrder(plan, k, m); }
  }

  /** No two nodes of a directory share a name. */
  lemma SameNameSamePlace(nodes: seq<Node>, names: seq<byte>, plan: seq<Planned>, root: Children, own: nat, i: nat,
                          j: nat)
    requires Flattened(nodes, names, plan, root) && own < |plan|
    requires plan[own].start <= i < plan[own].End() && plan[own].start <= j < plan[own].End() && i < |nodes|
             && j < |nodes|
    requires NodeName(names, nodes[i]) == NodeName(names, nodes[j])
    ensures i == j
  {
    hide Flattened, NodeOk, SegmentOk, Eytzinger.IsLayout;
    SegmentHolds(nodes, names, plan, root, own);
    var start := plan[own].start;
    var segment := nodes[start..plan[own].End()];
    SegmentKeys(segment, names, plan, own);
    assert segment[i - start] == nodes[i] && segment[j - start] == nodes[j];
    Eytzinger.LayoutHasNoRepeats(SegmentNames(segment, names), i - start, j - start);
  }

  /** Listing a directory gives every entry exactly once, under its name and with its kind. */
  lemma ListingIsComplete(nodes: seq<Node>, names: seq<byte>, plan: seq<Planned>, root: Children, index: nat,
                          u: Children)
    requires Flattened(nodes, names, plan, root) && Stands(nodes, plan, index, Branch(u))
    ensures InRange(nodes) && index < |nodes| && nodes[index].Dir?
    ensures var segment := nodes[nodes[index].childIndex..nodes[index].childIndex + nodes[index].childCount];
            && |segment| == |u|
            && (forall c :: c in u <==> c in SegmentNames(segment, names))
            && (forall i, j :: 0 <= i < j < |segment| ==> NodeName(names, segment[i]) != NodeName(names, segment[j]))
            && (forall i :: 0 <= i < |segment| ==> NodeName(names, segment[i]) in u
                                                   && (segment[i].Dir? <==> u[NodeName(names, segment[i])].Branch?))
  {
    hide Flattened, NodeOk, SegmentOk, Eytzinger.IsLayout, Stands;
    FlattenedInRange(nodes, names, plan, root);
    var k := PlanOf(nodes, plan, index, u);
    SegmentHolds(nodes, names, plan, root, k);
    var segment := nodes[plan[k].start..plan[k].End()];
    SegmentKeys(segment, names, plan, k);
    forall i | 0 <= i < |segment|
      ensures NodeName(names, segment[i]) in u && (segment[i].Dir? <==> u[NodeName(names, segment[i])].Branch?)
    {
      assert segment[i] == nodes[plan[k].start + i];
      NodeInSegment(nodes, names, plan, root, k, plan[k].start + i);
      NodeOkKind(segment[i], names, plan, k);
    }
    forall i, j | 0 <= i < j < |segment| ensures NodeName(names, segment[i]) != NodeName(names, segment[j]) {
      if NodeName(names, segment[i]) == NodeName(names, segment[j]) {
        Eytzinger.LayoutHasNoRepeats(SegmentNames(segment, names), i, j);
      }
    }
  }

  lemma NodeOkKind(x: Node, names: seq<byte>, plan: seq<Planned>, k: nat)
    requires k < |plan| && NodeOk(x, names, plan, k)
    ensures NodeName(names, x) in plan[k].children && (x.Dir? <==> plan[k].children[NodeName(names, x)].Branch?)
  {
  }
}

/** Which node of the flattened arrays a lookup finds: nodes and the paths of the trie are in one-to-one
    correspondence. */
module NodePaths {
  import opened Bytes
  import opened Paths
  import Eytzinger
  import opened Trie
  import opened Flatten
  import opened Index

  /** Node `j` lies in the child segment of directory `i`. */
  predicate ChildOf(nodes: seq<Node>, i: nat, j: nat) {
    && i < |nodes| && nodes[i].Dir?
    && nodes[i].childIndex <= j < nodes[i].childIndex + nodes[i].childCount
  }

  function Last(p: Path): Name
    requires p != []
  {
    p[|p| - 1]
  }

  function Front(p: Path): Path
    requires p != []
  {
    p[..|p| - 1]
  }

  /** Finding a path is finding its last component in what the path before it finds. */
  lemma {:induction false} FindLast(nodes: seq<Node>, names: seq<byte>, index: nat, p: Path)
    requires InRange(nodes) && p != []
    ensures FlatFind(nodes, names, index, p)
            == match FlatFind(nodes, names, index, Front(p))
               case None => None
               case Some(i) => FlatFind(nodes, names, i, [Last(p)])
    decreases |p|
  {
    if |p| == 1 {
      assert p == [Last(p)] && Front(p) == [];
    } else {
      FindFirst(nodes, names, index, p);
      FindFirst(nodes, names, index, Front(p));
      var step := FlatFind(nodes, names, index, [p[0]]);
      hide FlatFind, InRange;
      assert Front(p)[0] == p[0] && Front(p)[1..] == Front(p[1..]) && Last(p[1..]) == Last(p);
      if step.Some? { FindLast(nodes, names, step.value, p[1..]); }
    }
  }

  lemma FindFirst(nodes: seq<Node>, names: seq<byte>, index: nat, p: Path)
    requires InRange(nodes) && p != []
    ensures FlatFind(nodes, names, index, p)
            == match FlatFind(nodes, names, index, [p[0]])
               case None => None
               case Some(i) => FlatFind(nodes, names, i, p[1..])
  {
    hide Eytzinger.Search, SegmentNames;
    var first: Path := [p[0]];
    assert first[1..] == [];
  }

  lemma DirRange(nodes: seq<Node>, index: nat)
    requires InRange(nodes) && index < |nodes| && nodes[index].Dir?
    ensures nodes[index].childIndex + nodes[index].childCount <= |nodes|
  {
  }

  /** The names of a directory's segment are a layout. */
  lemma SegmentIsLayout(nodes: seq<Node>, names: seq<byte>, plan: seq<Planned>, root: Children, i: nat)
    requires Flattened(nodes, names, plan, root) && i < |nodes| && nodes[i].Dir?
    ensures var start, end := nodes[i].childIndex, nodes[i].childIndex + nodes[i].childCount;
            end <= |nodes| && Eytzinger.IsLayout(SegmentNames(nodes[start..end], names))
  {
    hide Flattened, SegmentOk, Eytzinger.IsLayout;
    var own, m := PlannedOfNode(nodes, names, plan, root, i);
    SegmentHolds(nodes, names, plan, root, m);
    SegmentKeys(nodes[plan[m].start..plan[m].End()], names, plan, m);
  }

  /** One component: the node found is the child of that name. */
  lemma ChildFoundIff(nodes: seq<Node>, names: seq<byte>, plan: seq<Planned>, root: Children, i: nat, c: Name, j: nat)
    requires Flattened(nodes, names, plan, root) && InRange(nodes)
    ensures FlatFind(nodes, names, i, [c]) == Some(j)
            <==> ChildOf(nodes, i, j) && j < |nodes| && NodeName(names, nodes[j]) == c
  {
    hide Flattened, InRange, Eytzinger.IsLayout, Eytzinger.Search;
    if i < |nodes| && nodes[i].Dir? {
      SegmentIsLayout(nodes, names, plan, root, i);
      var start, end := nodes[i].childIndex, nodes[i].childIndex + nodes[i].childCount;
      var keys := SegmentNames(nodes[start..end], names);
      Eytzinger.SearchIsRight(keys, c);
      assert FlatFind(nodes, names, i, [c])
             == match Eytzinger.Search(keys, c) case None => None case Some(k) => Some(start + k);
      if ChildOf(nodes, i, j) && NodeName(names, nodes[j]) == c {
        assert keys[j - start] == c;
        Eytzinger.LayoutHasNoRepeats(keys, Eytzinger.Search(keys, c).value, j - start);
      }
    }
  }

  /** The node found at a path bears its last component, and is a child of the node found at the path
      before it. */
  lemma FoundNode(nodes: seq<Node>, names: seq<byte>, plan: seq<Planned>, root: Children, index: nat, p: Path, j: nat)
    returns (i: nat)
    requires Flattened(nodes, names, plan, root) && InRange(nodes) && p != []
    requires FlatFind(nodes, names, index, p) == Some(j)
    ensures FlatFind(nodes, names, index, Front(p)) == Some(i)
    ensures ChildOf(nodes, i, j) && j < |nodes| && NodeName(names, nodes[j]) == Last(p)
  {
    hide Flattened, InRange, FlatFind;
    FindLast(nodes, names, index, p);
    i := FlatFind(nodes, names, index, Front(p)).value;
    ChildFoundIff(nodes, names, plan, root, i, Last(p), j);
  }

  /** Different paths find different nodes. */
  lemma {:induction false} FoundOnce(nodes: seq<Node>, names: seq<byte>, plan: seq<Planned>, root: Children,
                                     p: Path, q: Path, j: nat)
    requires Flattened(nodes, names, plan, root) && InRange(nodes) && |root| == 1
    requires FlatFind(nodes, names, 0, p) == Some(j) && FlatFind(nodes, names, 0, q) == Some(j)
    ensures p == q
    decreases |p|
  {
    hide Flattened, InRange;
    if p == [] && q == [] {
    } else if p == [] {
      var i := FoundNode(nodes, names, plan, root, 0, q, j);
      ChildrenFollow(nodes, names, plan, root, i, j);
    } else if q == [] {
      var i := FoundNode(nodes, names, plan, root, 0, p, j);
      ChildrenFollow(nodes, names, plan, root, i, j);
    } else {
      var i := FoundNode(nodes, names, plan, root, 0, p, j);
      var k := FoundNode(nodes, names, plan, root, 0, q, j);
      ChildrenFollow(nodes, names, plan, root, i, j);
      var parent := SegmentsPartition(nodes, names, plan, root, j);
      assert i == parent == k;
      FoundOnce(nodes, names, plan, root, Front(p), Front(q), i);
      assert p == Front(p) + [Last(p)] && q == Front(q) + [Last(q)];
    }
  }

  /** A child lies behind its directory. */
  lemma ChildrenFollow(nodes: seq<Node>, names: seq<byte>, plan: seq<Planned>, root: Children, i: nat, j: nat)
    requires Flattened(nodes, names, plan, root) && ChildOf(nodes, i, j)
    ensures i < j
  {
    hide Flattened;
    var own, m := PlannedOfNode(nodes, names, plan, root, i);
    PlanFacts(nodes, names, plan, root);
    EndsInOrder(plan, own, m);
  }

  /** Every node is found, at exactly one path. */
  lemma {:induction false} EveryNodeIsFound(nodes: seq<Node>, names: seq<byte>, plan: seq<Planned>, root: Children,
                                            n: nat)
    returns (p: Path)
    requires Flattened(nodes, names, plan, root) && InRange(nodes) && |root| == 1 && n < |nodes|
    ensures FlatFind(nodes, names, 0, p) == Some(n)
    ensures forall q :: FlatFind(nodes, names, 0, q) == Some(n) ==> q == p
    decreases n
  {
    hide Flattened, InRange;
    if n == 0 {
      p := [];
    } else {
      var i := SegmentsPartition(nodes, names, plan, root, n);
      var front := EveryNodeIsFound(nodes, names, plan, root, i);
      p := front + [NodeName(names, nodes[n])];
      ChildFoundIff(nodes, names, plan, root, i, NodeName(names, nodes[n]), n);
      FindLast(nodes, names, 0, p);
      assert Front(p) == front;
    }
    forall q | FlatFind(nodes, names, 0, q) == Some(n) ensures q == p {
      FoundOnce(nodes, names, plan, root, q, p, n);
    }
  }
}

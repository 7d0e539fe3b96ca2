/** `into_rofs`: flattening the trie breadth-first into one node array with interned names, every
    directory's children contiguous and laid out as a search tree. */
module Flatten {
  import opened Bytes
  import opened Paths
  import Eytzinger
  import opened Trie
  import opened Object

  datatype Node =
    | Dir(childIndex: nat, childCount: nat, nameIndex: nat)
    | File(dataIndex: nat, nameIndex: nat)

  datatype Rofs<+T> = Rofs(nodes: seq<Node>, names: seq<byte>, files: seq<T>)

  // ---- interned names ----

  predicate ValidName(names: seq<byte>, index: nat) {
    index < |names| && index + 1 + names[index] <= |names|
  }

  /** The length-prefixed name at an index. */
  function NameAt(names: seq<byte>, index: nat): Name {
    if ValidName(names, index) then names[index + 1..index + 1 + names[index]] else []
  }

  function NodeName(names: seq<byte>, node: Node): Name {
    NameAt(names, node.nameIndex)
  }

  predicate InternedOk(names: seq<byte>, interned: map<Name, nat>) {
    forall n :: n in interned ==> ValidName(names, interned[n]) && NameAt(names, interned[n]) == n
  }

  lemma NamesGrow(names: seq<byte>, more: seq<byte>, index: nat)
    requires ValidName(names, index)
    ensures ValidName(names + more, index) && NameAt(names + more, index) == NameAt(names, index)
  {
  }

  lemma InternNew(names: seq<byte>, interned: map<Name, nat>, name: Name)
    requires InternedOk(names, interned) && |name| <= MAX_NAME
    ensures InternedOk(names + [|name|] + name, interned[name := |names|])
  {
    var grown := names + [|name|] + name;
    assert grown == names + ([|name|] + name);
    assert NameAt(grown, |names|) == name;
    forall n | n in interned ensures ValidName(grown, interned[n]) && NameAt(grown, interned[n]) == n {
      NamesGrow(names, [|name|] + name, interned[n]);
    }
  }

  // ---- counting ----

  /** Nodes below a node. */
  ghost function Below(node: TreeNode): nat
    decreases node, 1, 0
  {
    if node.Leaf? then 0 else CountBelow(node, node.children.Keys)
  }

  ghost function CountBelow(node: TreeNode, keys: set<Name>): nat
    requires node.Branch? && keys <= node.children.Keys
    decreases node, 0, |keys|
  {
    if keys == {} then 0
    else
      var c :| c in keys;
      1 + Below(node.children[c]) + CountBelow(node, keys - {c})
  }

  /** The count does not depend on the order of the entries. */
  lemma {:induction false} CountAny(node: TreeNode, keys: set<Name>, c: Name)
    requires node.Branch? && keys <= node.children.Keys && c in keys
    ensures CountBelow(node, keys) == 1 + Below(node.children[c]) + CountBelow(node, keys - {c})
    decreases |keys|
  {
    var d :| d in keys && CountBelow(node, keys) == 1 + Below(node.children[d]) + CountBelow(node, keys - {d});
    if d != c {
      CountAny(node, keys - {d}, c);
      CountAny(node, keys - {c}, d);
      assert keys - {d} - {c} == keys - {c} - {d};
    }
  }

  lemma {:induction false} CountAtLeast(node: TreeNode, keys: set<Name>)
    requires node.Branch? && keys <= node.children.Keys
    ensures CountBelow(node, keys) >= |keys|
    decreases |keys|
  {
    if keys != {} {
      var c :| c in keys;
      CountAny(node, keys, c);
      CountAtLeast(node, keys - {c});
    }
  }

  ghost function Pending(queue: seq<Children>): nat {
    if queue == [] then 0 else Below(Branch(queue[0])) + Pending(queue[1..])
  }

  lemma {:induction false} PendingPush(queue: seq<Children>, t: Children)
    ensures Pending(queue + [t]) == Pending(queue) + Below(Branch(t))
  {
    if queue == [] {
      assert (queue + [t])[1..] == [];
    } else {
      assert (queue + [t])[1..] == queue[1..] + [t];
      PendingPush(queue[1..], t);
    }
  }

  // ---- the plan: every directory with the place of its children ----

  /** A directory in the order of the queue: its entries, where their nodes start, and which entry of
      which earlier directory it is. */
  datatype Planned = Planned(children: Children, start: nat, parent: nat, name: Name) {
    function End(): nat { start + |children| }
  }

  /** Segments follow each other from 0 without gap. */
  predicate Consecutive(plan: seq<Planned>) {
    && plan != [] && plan[0].start == 0
    && forall k :: 0 < k < |plan| ==> plan[k].start == plan[k - 1].End()
  }

  /** Node `x` of directory `own` stands for an entry of it: a file with its index, or a directory whose
      children's place is planned later. */
  predicate NodeOk(x: Node, names: seq<byte>, plan: seq<Planned>, own: nat)
    requires own < |plan|
  {
    var name, t := NodeName(names, x), plan[own].children;
    && ValidName(names, x.nameIndex) && name in t
    && match t[name]
       case Leaf(i) => x.File? && x.dataIndex == i
       case Branch(u) =>
         && x.Dir? && x.childCount == |u|
         && exists k :: own < k < |plan| && plan[k] == Planned(u, x.childIndex, own, name)
  }

  function SegmentNames(nodes: seq<Node>, names: seq<byte>): (r: seq<Name>)
    ensures |r| == |nodes|
  {
    seq(|nodes|, i requires 0 <= i < |nodes| => NodeName(names, nodes[i]))
  }

  /** The nodes of directory `own`: each stands for an entry, every entry has one, and they are a layout. */
  predicate SegmentOk(segment: seq<Node>, names: seq<byte>, plan: seq<Planned>, own: nat)
    requires own < |plan|
  {
    && |segment| == |plan[own].children|
    && (forall i :: 0 <= i < |segment| ==> NodeOk(segment[i], names, plan, own))
    && (forall c :: c in plan[own].children ==> c in SegmentNames(segment, names))
    && Eytzinger.IsLayout(SegmentNames(segment, names))
  }

  predicate SegmentsOk(nodes: seq<Node>, names: seq<byte>, plan: seq<Planned>, j: nat)
    requires j <= |plan|
  {
    forall k :: 0 <= k < j ==>
        plan[k].End() <= |nodes| && SegmentOk(nodes[plan[k].start..plan[k].End()], names, plan, k)
  }

  /** Every planned directory but the root is an entry of an earlier one. */
  predicate ParentsOk(plan: seq<Planned>) {
    forall k :: 0 < k < |plan| ==>
      plan[k].parent < k && plan[k].name in plan[plan[k].parent].children
      && plan[plan[k].parent].children[plan[k].name] == Branch(plan[k].children)
  }

  /** No two planned directories are the same entry. */
  predicate DistinctEntries(plan: seq<Planned>) {
    forall k, m :: 0 < k < m < |plan| ==> (plan[k].parent, plan[k].name) != (plan[m].parent, plan[m].name)
  }

  /** What flattening a root map gives. */
  predicate Flattened(nodes: seq<Node>, names: seq<byte>, plan: seq<Planned>, root: Children) {
    && Consecutive(plan) && plan[0].children == root && ParentsOk(plan) && DistinctEntries(plan)
    && |nodes| == plan[|plan| - 1].End()
    && SegmentsOk(nodes, names, plan, |plan|)
  }

  // ---- growth ----

  lemma NodeOkGrows(x: Node, names: seq<byte>, more: seq<byte>, plan: seq<Planned>, later: seq<Planned>, own: nat)
    requires own < |plan| && NodeOk(x, names, plan, own)
    ensures NodeOk(x, names + more, plan + later, own)
  {
    NamesGrow(names, more, x.nameIndex);
    var name, t := NodeName(names, x), plan[own].children;
    if t[name].Branch? {
      var k :| own < k < |plan| && plan[k] == Planned(t[name].children, x.childIndex, own, name);
      assert (plan + later)[k] == plan[k];
    }
  }

  lemma SegmentOkGrows(segment: seq<Node>, names: seq<byte>, more: seq<byte>, plan: seq<Planned>, later: seq<Planned>,
                       own: nat)
    requires own < |plan| && SegmentOk(segment, names, plan, own)
    ensures SegmentOk(segment, names + more, plan + later, own)
  {
    hide NodeOk, Eytzinger.IsLayout;
    forall i | 0 <= i < |segment| ensures NodeOk(segment[i], names + more, plan + later, own) {
      NodeOkGrows(segment[i], names, more, plan, later, own);
    }
    forall i | 0 <= i < |segment| ensures NodeName(names + more, segment[i]) == NodeName(names, segment[i]) {
      NodeOkNamed(segment[i], names, plan, own);
      NamesGrow(names, more, segment[i].nameIndex);
    }
    assert SegmentNames(segment, names + more) == SegmentNames(segment, names);
  }

  lemma NodeOkNamed(x: Node, names: seq<byte>, plan: seq<Planned>, own: nat)
    requires own < |plan| && NodeOk(x, names, plan, own)
    ensures ValidName(names, x.nameIndex) && NodeName(names, x) in plan[own].children
  {
  }

  lemma SegmentsOkGrow(nodes: seq<Node>, added: seq<Node>, names: seq<byte>, more: seq<byte>, plan: seq<Planned>,
                       later: seq<Planned>, j: nat)
    requires j <= |plan| && SegmentsOk(nodes, names, plan, j)
    ensures SegmentsOk(nodes + added, names + more, plan + later, j)
  {
    hide SegmentOk;
    forall k | 0 <= k < j
      ensures plan[k].End() <= |nodes + added|
              && SegmentOk((nodes + added)[plan[k].start..plan[k].End()], names + more, plan + later, k)
    {
      var segment := nodes[plan[k].start..plan[k].End()];
      assert (nodes + added)[plan[k].start..plan[k].End()] == segment;
      SegmentOkGrows(segment, names, more, plan, later, k);
    }
    assert forall k :: 0 <= k < j ==> (plan + later)[k] == plan[k];
  }

  // ---- one directory ----

  /** Nodes emitted so far for directory `own`: one for each of the entries `done`. */
  predicate BatchOk(batch: seq<Node>, names: seq<byte>, plan: seq<Planned>, own: nat, done: set<Name>)
    requires own < |plan|
  {
    && |batch| == |done|
    && (forall i :: 0 <= i < |batch| ==> NodeOk(batch[i], names, plan, own) && NodeName(names, batch[i]) in done)
    && (forall c :: c in done ==> c in SegmentNames(batch, names))
    && Eytzinger.DistinctKeys(batch, x => NodeName(names, x))
  }

  lemma BatchGrows(batch: seq<Node>, names: seq<byte>, more: seq<byte>, plan: seq<Planned>, later: seq<Planned>,
                   own: nat, done: set<Name>)
    requires own < |plan| && BatchOk(batch, names, plan, own, done)
    ensures BatchOk(batch, names + more, plan + later, own, done)
  {
    hide NodeOk;
    forall i | 0 <= i < |batch|
      ensures NodeOk(batch[i], names + more, plan + later, own)
              && NodeName(names + more, batch[i]) == NodeName(names, batch[i])
    {
      NodeOkGrows(batch[i], names, more, plan, later, own);
      NodeOkNamed(batch[i], names, plan, own);
      NamesGrow(names, more, batch[i].nameIndex);
    }
    assert SegmentNames(batch, names + more) == SegmentNames(batch, names);
  }

  lemma BatchAdd(batch: seq<Node>, names: seq<byte>, plan: seq<Planned>, own: nat, done: set<Name>, x: Node)
    requires own < |plan| && BatchOk(batch, names, plan, own, done)
    requires NodeOk(x, names, plan, own) && NodeName(names, x) !in done
    ensures BatchOk(batch + [x], names, plan, own, done + {NodeName(names, x)})
  {
    hide NodeOk;
    var c := NodeName(names, x);
    var grown := SegmentNames(batch + [x], names);
    assert grown == SegmentNames(batch, names) + [c];
    assert |done + {c}| == |done| + 1;
  }

  /** Sorting a complete batch by name and laying it out gives the directory's segment. */
  lemma BatchBecomesSegment(batch: seq<Node>, names: seq<byte>, plan: seq<Planned>, own: nat)
    requires own < |plan| && BatchOk(batch, names, plan, own, plan[own].children.Keys)
    ensures SegmentOk(Eytzinger.Eytzingerize(Eytzinger.Sort(batch, x => NodeName(names, x))), names, plan, own)
  {
    hide NodeOk, Eytzinger.Eytzingerize, Eytzinger.Sort, Eytzinger.IsLayout;
    var key := (x: Node) => NodeName(names, x);
    var sorted := Eytzinger.Sort(batch, key);
    var laid := Eytzinger.Eytzingerize(sorted);
    Eytzinger.SortIsRight(batch, key);
    Eytzinger.LayoutContents(sorted);
    SameNodes(batch, sorted, laid);
    forall i | 0 <= i < |laid| ensures NodeOk(laid[i], names, plan, own) {
      assert laid[i] in laid;
    }
    forall c | c in plan[own].children ensures c in SegmentNames(laid, names) {
      NamesCarryOver(batch, laid, names, c);
    }
    NamesOfLayout(sorted, names);
    Eytzinger.SortedGivesLayout(SegmentNames(sorted, names));
  }

  lemma SameNodes(batch: seq<Node>, sorted: seq<Node>, laid: seq<Node>)
    requires multiset(sorted) == multiset(batch) && forall x :: x in laid <==> x in sorted
    ensures forall x :: x in laid <==> x in batch
  {
    forall x ensures x in laid <==> x in batch { assert x in multiset(sorted) <==> x in multiset(batch); }
  }

  lemma NamesCarryOver(batch: seq<Node>, laid: seq<Node>, names: seq<byte>, c: Name)
    requires c in SegmentNames(batch, names) && forall x :: x in batch ==> x in laid
    ensures c in SegmentNames(laid, names)
  {
    var i :| 0 <= i < |batch| && NodeName(names, batch[i]) == c;
    assert batch[i] in laid;
    var m :| 0 <= m < |laid| && laid[m] == batch[i];
    assert SegmentNames(laid, names)[m] == c;
  }

  lemma NamesOfLayout(sorted: seq<Node>, names: seq<byte>)
    ensures SegmentNames(Eytzinger.Eytzingerize(sorted), names) == Eytzinger.Eytzingerize(SegmentNames(sorted, names))
  {
  }

  // ---- the plan grows ----

  /** The plan while directory `own` is being emitted, its entries `done` already handled. */
  predicate PlanOk(plan: seq<Planned>, own: nat, done: set<Name>) {
    && Consecutive(plan) && ParentsOk(plan) && DistinctEntries(plan)
    && forall k :: 0 < k < |plan| ==> plan[k].parent < own || (plan[k].parent == own && plan[k].name in done)
  }

  lemma PlanAdd(plan: seq<Planned>, own: nat, done: set<Name>, name: Name, u: Children)
    requires own < |plan| && PlanOk(plan, own, done) && name !in done
    requires name in plan[own].children && plan[own].children[name] == Branch(u)
    ensures PlanOk(plan + [Planned(u, plan[|plan| - 1].End(), own, name)], own, done + {name})
  {
    var p := Planned(u, plan[|plan| - 1].End(), own, name);
    ParentsAdd(plan, p);
    DistinctAdd(plan, own, done, p);
    hide ParentsOk, DistinctEntries;
    var grown := plan + [p];
    assert forall k :: 0 <= k < |plan| ==> grown[k] == plan[k];
    assert grown[|plan|] == p;
  }

  lemma ParentsAdd(plan: seq<Planned>, p: Planned)
    requires ParentsOk(plan) && p.parent < |plan|
    requires p.name in plan[p.parent].children && plan[p.parent].children[p.name] == Branch(p.children)
    ensures ParentsOk(plan + [p])
  {
    var grown := plan + [p];
    forall k | 0 < k < |grown|
      ensures grown[k].parent < k && grown[k].name in grown[grown[k].parent].children
              && grown[grown[k].parent].children[grown[k].name] == Branch(grown[k].children)
    {
      assert grown[k] == if k < |plan| then plan[k] else p;
      assert grown[grown[k].parent] == plan[grown[k].parent];
    }
  }

  lemma DistinctAdd(plan: seq<Planned>, own: nat, done: set<Name>, p: Planned)
    requires PlanOk(plan, own, done) && p.parent == own && p.name !in done
    ensures DistinctEntries(plan + [p])
  {
    hide Consecutive, ParentsOk;
    var grown := plan + [p];
    forall k, m | 0 < k < m < |grown| ensures (grown[k].parent, grown[k].name) != (grown[m].parent, grown[m].name) {
      assert grown[k] == plan[k];
      assert grown[m] == if m < |plan| then plan[m] else p;
    }
  }

  predicate FitNames(node: TreeNode)
    decreases node
  {
    node.Branch? ==> forall c :: c in node.children ==> |c| <= MAX_NAME && FitNames(node.children[c])
  }

  // ---- the queue ----

  /** The queue holds the directories planned but not yet emitted. */
  predicate QueueIs(queue: seq<Children>, plan: seq<Planned>, next: nat) {
    && next + |queue| == |plan|
    && forall i :: 0 <= i < |queue| ==> queue[i] == plan[next + i].children && FitNames(Branch(queue[i]))
  }

  ghost function Sizes(queue: seq<Children>): nat {
    if queue == [] then 0 else |queue[0]| + Sizes(queue[1..])
  }

  lemma {:induction false} SizesPush(queue: seq<Children>, t: Children)
    ensures Sizes(queue + [t]) == Sizes(queue) + |t|
  {
    if queue == [] {
      assert (queue + [t])[1..] == [];
    } else {
      assert (queue + [t])[1..] == queue[1..] + [t];
      SizesPush(queue[1..], t);
    }
  }

  lemma {:induction false} SizesArePending(queue: seq<Children>)
    ensures Sizes(queue) <= Pending(queue)
  {
    if queue == [] {
    } else {
      SizesArePending(queue[1..]);
      CountAtLeast(Branch(queue[0]), queue[0].Keys);
    }
  }

  lemma QueuePush(queue: seq<Children>, plan: seq<Planned>, next: nat, p: Planned)
    requires QueueIs(queue, plan, next) && FitNames(Branch(p.children))
    ensures QueueIs(queue + [p.children], plan + [p], next)
  {
  }

  /** Look a name up among the interned ones, or append it behind its length. */
  method Intern(name: Name, names: seq<byte>, interned: map<Name, nat>)
    returns (ok: bool, index: nat, allNames: seq<byte>, allInterned: map<Name, nat>, ghost more: seq<byte>)
    requires InternedOk(names, interned) && |name| <= MAX_NAME
    ensures ok ==> InternedOk(allNames, allInterned) && ValidName(allNames, index) && NameAt(allNames, index) == name
    ensures ok ==> allNames == names + more && |more| <= MAX_NAME + 1
    ensures !ok ==> |names| >= U32_LIMIT
  {
    more := [];
    if name in interned {
      return true, interned[name], names, interned, [];
    }
    index := |names|;
    if index >= U32_LIMIT {
      return false, index, names, interned, [];
    }
    InternNew(names, interned, name);
    more := [|name|] + name;
    allNames := names + [|name|] + name;
    assert allNames == names + more && NameAt(allNames, index) == name;
    return true, index, allNames, interned[name := index], more;
  }

  /** Where the emission of directory `own` stands: `todo` are the entries still to come. */
  ghost predicate Emitting(branch: Children, own: nat, base: nat, total: nat, todo: set<Name>, batch: seq<Node>,
                           names: seq<byte>,
                           interned: map<Name, nat>, queue: seq<Children>, childIndex: nat, plan: seq<Planned>)
  {
    && own < |plan| && plan[own].children == branch && todo <= branch.Keys
    && InternedOk(names, interned) && BatchOk(batch, names, plan, own, branch.Keys - todo)
    && PlanOk(plan, own, branch.Keys - todo) && QueueIs(queue, plan, own + 1)
    && childIndex == plan[|plan| - 1].End() == base + |branch| + Sizes(queue)
    && base + |batch| + CountBelow(Branch(branch), todo) + Pending(queue) == total
  }

  lemma EmitLeaf(branch: Children, own: nat, base: nat, total: nat, todo: set<Name>, batch: seq<Node>, names: seq<byte>,
                 interned: map<Name, nat>, queue: seq<Children>, childIndex: nat, plan: seq<Planned>, name: Name,
                 x: Node)
    requires Emitting(branch, own, base, total, todo, batch, names, interned, queue, childIndex, plan)
    requires name in todo && branch[name].Leaf?
    requires x.File? && x.dataIndex == branch[name].file && ValidName(names, x.nameIndex) && NodeName(names, x) == name
    ensures Emitting(branch, own, base, total, todo - {name}, batch + [x], names, interned, queue, childIndex, plan)
  {
    hide BatchOk, QueueIs, InternedOk, Consecutive, ParentsOk, DistinctEntries;
    BatchAdd(batch, names, plan, own, branch.Keys - todo, x);
    CountAny(Branch(branch), todo, name);
    assert branch.Keys - (todo - {name}) == branch.Keys - todo + {name};
  }

  lemma EmitDir(branch: Children, own: nat, base: nat, total: nat, todo: set<Name>, batch: seq<Node>, names: seq<byte>,
                interned: map<Name, nat>, queue: seq<Children>, childIndex: nat, plan: seq<Planned>, name: Name,
                u: Children, x: Node)
    requires Emitting(branch, own, base, total, todo, batch, names, interned, queue, childIndex, plan)
    requires name in todo && branch[name] == Branch(u) && FitNames(Branch(u))
    requires x == Dir(childIndex, |u|, x.nameIndex) && ValidName(names, x.nameIndex) && NodeName(names, x) == name
    ensures Emitting(branch, own, base, total, todo - {name}, batch + [x], names, interned, queue + [u],
                     childIndex + |u|, plan + [Planned(u, childIndex, own, name)])
    ensures childIndex + |u| <= total
  {
    hide BatchOk, QueueIs, InternedOk, PlanOk, FitNames, NodeOk, CountBelow, Pending, Sizes;
    var p := Planned(u, childIndex, own, name);
    var done := branch.Keys - todo;
    BatchAddDir(batch, names, plan, own, done, x, p);
    PlanAdd(plan, own, done, name, u);
    QueuePush(queue, plan, own + 1, p);
    CountAny(Branch(branch), todo, name);
    PendingPush(queue, u);
    SizesPush(queue, u);
    SizesArePending(queue);
    CountAtLeast(Branch(branch), todo - {name});
    CountAtLeast(Branch(u), u.Keys);
    BatchSize(batch, names, plan, own, done);
    assert |branch.Keys| == |done| + |todo| by { assert branch.Keys == done + todo; }
    assert branch.Keys - (todo - {name}) == done + {name};
  }

  lemma BatchAddDir(batch: seq<Node>, names: seq<byte>, plan: seq<Planned>, own: nat, done: set<Name>, x: Node,
                    p: Planned)
    requires own < |plan| && BatchOk(batch, names, plan, own, done) && p.name in plan[own].children && p.name !in done
    requires plan[own].children[p.name] == Branch(p.children) && p.parent == own
    requires x == Dir(p.start, |p.children|, x.nameIndex) && ValidName(names, x.nameIndex)
             && NodeName(names, x) == p.name
    ensures BatchOk(batch + [x], names, plan + [p], own, done + {p.name})
  {
    hide BatchOk;
    assert names + [] == names;
    BatchGrows(batch, names, [], plan, [p], own, done);
    assert NodeOk(x, names, plan + [p], own) by { assert (plan + [p])[|plan|] == p; }
    BatchAdd(batch, names, plan + [p], own, done, x);
  }

  lemma BatchSize(batch: seq<Node>, names: seq<byte>, plan: seq<Planned>, own: nat, done: set<Name>)
    requires own < |plan| && BatchOk(batch, names, plan, own, done)
    ensures |batch| == |done|
  {
  }

  lemma EmitNames(branch: Children, own: nat, base: nat, total: nat, todo: set<Name>, batch: seq<Node>,
                  names: seq<byte>, more: seq<byte>,
                  interned: map<Name, nat>, allInterned: map<Name, nat>, queue: seq<Children>, childIndex: nat,
                  plan: seq<Planned>)
    requires Emitting(branch, own, base, total, todo, batch, names, interned, queue, childIndex, plan)
    requires InternedOk(names + more, allInterned)
    ensures Emitting(branch, own, base, total, todo, batch, names + more, allInterned, queue, childIndex, plan)
  {
    hide BatchOk, QueueIs, InternedOk, PlanOk;
    BatchGrows(batch, names, more, plan, [], own, branch.Keys - todo);
    assert plan + [] == plan;
  }

  /** The loop over one directory's entries, in whatever order the map yields them. */
  method EmitBranch(branch: Children, names0: seq<byte>, interned0: map<Name, nat>, queue0: seq<Children>,
                    childIndex0: nat, ghost own: nat, ghost base: nat, ghost total: nat, ghost plan0: seq<Planned>)
    returns (ok: bool, batch: seq<Node>, names: seq<byte>, interned: map<Name, nat>, queue: seq<Children>,
             childIndex: nat, ghost plan: seq<Planned>, ghost more: seq<byte>, ghost later: seq<Planned>)
    requires Emitting(branch, own, base, total, branch.Keys, [], names0, interned0, queue0, childIndex0, plan0)
    requires FitNames(Branch(branch)) && total < U32_LIMIT
    ensures ok ==> Emitting(branch, own, base, total, {}, batch, names, interned, queue, childIndex, plan)
    ensures ok ==> names == names0 + more && plan == plan0 + later && |more| <= (MAX_NAME + 1) * |batch|
    ensures ok ==> |queue| <= |queue0| + |batch|
    ensures !ok ==> |names0| + (MAX_NAME + 1) * |branch| >= U32_LIMIT
  {
    hide Emitting;
    ok, batch, names, interned, queue, childIndex, plan, more, later := true, [], names0, interned0, queue0,
    childIndex0, plan0, [], [];
    assert names0 + [] == names0 && plan0 + [] == plan0;
    var todo := branch.Keys;
    while todo != {}
      invariant ok && todo <= branch.Keys && |batch| + |todo| == |branch| && |queue| <= |queue0| + |batch|
      invariant Emitting(branch, own, base, total, todo, batch, names, interned, queue, childIndex, plan)
      invariant names == names0 + more && plan == plan0 + later && |more| <= (MAX_NAME + 1) * |batch|
      decreases |todo|
    {
      var name :| name in todo;
      EmittingNames(branch, own, base, total, todo, batch, names, interned, queue, childIndex, plan);
      var found, nameIndex, allNames, allInterned;
      ghost var added;
      found, nameIndex, allNames, allInterned, added := Intern(name, names, interned);
      if !found {
        ok := false;
        return;
      }
      EmitNames(branch, own, base, total, todo, batch, names, added, interned, allInterned, queue, childIndex, plan);
      assert names0 + (more + added) == (names0 + more) + added;
      names, interned, more := allNames, allInterned, more + added;
      match branch[name] {
        case Branch(u) =>
          var node := Dir(childIndex, |u|, nameIndex);
          EmitDir(branch, own, base, total, todo, batch, names, interned, queue, childIndex, plan, name, u, node);
          batch := batch + [node];
          queue := queue + [u];
          assert plan0 + (later + [Planned(u, childIndex, own, name)])
              == (plan0 + later) + [Planned(u, childIndex, own, name)];
          plan, later := plan + [Planned(u, childIndex, own, name)], later + [Planned(u, childIndex, own, name)];
          childIndex := childIndex + |u|;
        case Leaf(dataIndex) =>
          var node := File(dataIndex, nameIndex);
          EmitLeaf(branch, own, base, total, todo, batch, names, interned, queue, childIndex, plan, name, node);
          batch := batch + [node];
      }
      todo := todo - {name};
    }
  }

  lemma EmittingNames(branch: Children, own: nat, base: nat, total: nat, todo: set<Name>, batch: seq<Node>,
                      names: seq<byte>,
                      interned: map<Name, nat>, queue: seq<Children>, childIndex: nat, plan: seq<Planned>)
    requires Emitting(branch, own, base, total, todo, batch, names, interned, queue, childIndex, plan)
    ensures InternedOk(names, interned)
  {
  }

  /** The main loop's invariant: the first `next` directories are emitted, the queue holds the others. */
  ghost predicate Progress(root: Children, total: nat, nodes: seq<Node>, names: seq<byte>, interned: map<Name, nat>,
                           queue: seq<Children>, childIndex: nat, plan: seq<Planned>, next: nat)
  {
    && next <= |plan| && InternedOk(names, interned) && PlanOk(plan, next, {}) && QueueIs(queue, plan, next)
    && plan[0].children == root && SegmentsOk(nodes, names, plan, next)
    && |nodes| == (if next < |plan| then plan[next].start else plan[|plan| - 1].End())
    && |nodes| + Pending(queue) == total
    && childIndex == plan[|plan| - 1].End() == |nodes| + Sizes(queue)
    && |names| <= (MAX_NAME + 1) * |nodes|
  }

  lemma Begin(root: Children)
    requires |root| == 1 && FitNames(Branch(root))
    ensures Progress(root, Below(Branch(root)), [], [], map[], [root], 1, [Planned(root, 0, 0, [])], 0)
  {
    assert Pending([root][1..]) == 0 && Sizes([root][1..]) == 0;
  }

  lemma PopStartsEmission(root: Children, total: nat, nodes: seq<Node>, names: seq<byte>, interned: map<Name, nat>,
                          queue: seq<Children>, childIndex: nat, plan: seq<Planned>, next: nat)
    requires Progress(root, total, nodes, names, interned, queue, childIndex, plan, next) && queue != []
    ensures FitNames(Branch(queue[0])) && |queue[0]| <= Below(Branch(queue[0])) <= total - |nodes|
    ensures next < |plan| && queue[0] == plan[next].children
    ensures Emitting(queue[0], next, |nodes|, total, queue[0].Keys, [], names, interned, queue[1..], childIndex, plan)
  {
    hide SegmentsOk, InternedOk, FitNames, PlanOk, CountBelow;
    assert queue[0].Keys - queue[0].Keys == {};
    QueuePop(queue, plan, next);
    hide QueueIs;
    NothingEmitted(names, plan, next);
    hide BatchOk;
    CountAtLeast(Branch(queue[0]), queue[0].Keys);
  }

  lemma QueuePop(queue: seq<Children>, plan: seq<Planned>, next: nat)
    requires QueueIs(queue, plan, next) && queue != []
    ensures next < |plan| && queue[0] == plan[next].children && FitNames(Branch(queue[0]))
    ensures QueueIs(queue[1..], plan, next + 1)
  {
    hide FitNames;
  }

  lemma NothingEmitted(names: seq<byte>, plan: seq<Planned>, own: nat)
    requires own < |plan|
    ensures BatchOk([], names, plan, own, {})
  {
  }

  /** Appending the finished segment completes the step. */
  lemma EmissionCompletes(root: Children, total: nat, nodes: seq<Node>, names0: seq<byte>, more: seq<byte>,
                          interned: map<Name, nat>,
                          batch: seq<Node>, segment: seq<Node>, queue: seq<Children>, childIndex: nat,
                          plan0: seq<Planned>, later: seq<Planned>, next: nat)
    requires next < |plan0| && plan0[0].children == root && Consecutive(plan0)
    requires SegmentsOk(nodes, names0, plan0, next) && |nodes| == plan0[next].start
             && |names0| <= (MAX_NAME + 1) * |nodes|
    requires Emitting(plan0[next].children, next, |nodes|, total, {}, batch, names0 + more, interned, queue, childIndex,
                      plan0 + later)
    requires |more| <= (MAX_NAME + 1) * |batch|
    requires |segment| == |batch| && SegmentOk(segment, names0 + more, plan0 + later, next)
    ensures Progress(root, total, nodes + segment, names0 + more, interned, queue, childIndex, plan0 + later, next + 1)
  {
    var plan, all := plan0 + later, nodes + segment;
    EmissionDone(plan0[next].children, next, |nodes|, total, batch, names0 + more, interned, queue, childIndex, plan);
    hide Emitting, SegmentsOk, InternedOk, QueueIs, PlanOk, SegmentOk, Sizes, Pending;
    assert plan[next] == plan0[next] && plan[0] == plan0[0];
    NextStart(plan, next);
    SegmentAppended(nodes, segment, names0, more, plan0, later, next);
  }

  lemma SegmentAppended(nodes: seq<Node>, segment: seq<Node>, names: seq<byte>, more: seq<byte>, plan: seq<Planned>,
                        later: seq<Planned>, next: nat)
    requires next < |plan| && SegmentsOk(nodes, names, plan, next) && |nodes| == plan[next].start
    requires |segment| == |plan[next].children| && SegmentOk(segment, names + more, plan + later, next)
    ensures SegmentsOk(nodes + segment, names + more, plan + later, next + 1)
  {
    SegmentsOkGrow(nodes, segment, names, more, plan, later, next);
    hide SegmentOk;
    assert (plan + later)[next] == plan[next];
    assert (nodes + segment)[plan[next].start..plan[next].End()] == segment;
  }

  /** What a finished emission leaves. */
  lemma EmissionDone(branch: Children, own: nat, base: nat, total: nat, batch: seq<Node>, names: seq<byte>,
                     interned: map<Name, nat>, queue: seq<Children>, childIndex: nat, plan: seq<Planned>)
    requires Emitting(branch, own, base, total, {}, batch, names, interned, queue, childIndex, plan)
    ensures |batch| == |branch| && InternedOk(names, interned) && QueueIs(queue, plan, own + 1)
    ensures PlanOk(plan, own + 1, {}) && Consecutive(plan)
    ensures base + |batch| + Pending(queue) == total
    ensures childIndex == plan[|plan| - 1].End() == base + |batch| + Sizes(queue)
  {
    hide InternedOk, BatchOk, QueueIs, PlanOk;
    assert branch.Keys - {} == branch.Keys;
    BatchSize(batch, names, plan, own, branch.Keys);
    PlanNext(plan, own, branch.Keys);
  }

  lemma NextStart(plan: seq<Planned>, next: nat)
    requires Consecutive(plan) && next < |plan|
    ensures plan[next].End() == if next + 1 < |plan| then plan[next + 1].start else plan[|plan| - 1].End()
  {
  }

  lemma PlanNext(plan: seq<Planned>, own: nat, done: set<Name>)
    requires PlanOk(plan, own, done)
    ensures PlanOk(plan, own + 1, {}) && Consecutive(plan)
  {
  }

  lemma BatchSegment(branch: Children, own: nat, base: nat, total: nat, batch: seq<Node>, names: seq<byte>,
                     interned: map<Name, nat>, queue: seq<Children>, childIndex: nat, plan: seq<Planned>)
    requires Emitting(branch, own, base, total, {}, batch, names, interned, queue, childIndex, plan)
    ensures SegmentOk(Eytzinger.Eytzingerize(Eytzinger.Sort(batch, x => NodeName(names, x))), names, plan, own)
  {
    hide SegmentOk, InternedOk, BatchOk, QueueIs, PlanOk;
    assert branch.Keys - {} == branch.Keys;
    BatchBecomesSegment(batch, names, plan, own);
  }

  lemma FlattenedEmpty()
    ensures Flattened([], [], [Planned(map[], 0, 0, [])], map[])
  {
    assert Eytzinger.InOrder(0, 0) == [];
    assert SegmentOk([], [], [Planned(map[], 0, 0, [])], 0);
  }

  lemma Finished(root: Children, total: nat, nodes: seq<Node>, names: seq<byte>, interned: map<Name, nat>,
                 childIndex: nat, plan: seq<Planned>, next: nat)
    requires Progress(root, total, nodes, names, interned, [], childIndex, plan, next)
    ensures Flattened(nodes, names, plan, root) && |nodes| == total
  {
  }

  /** What the loop relies on at its head. */
  lemma ProgressFacts(root: Children, total: nat, nodes: seq<Node>, names: seq<byte>, interned: map<Name, nat>,
                      queue: seq<Children>, childIndex: nat, plan: seq<Planned>, next: nat)
    requires Progress(root, total, nodes, names, interned, queue, childIndex, plan, next) && queue != []
    ensures |nodes| <= total && |names| <= (MAX_NAME + 1) * |nodes| && next < |plan|
    ensures plan[0].children == root && Consecutive(plan) && SegmentsOk(nodes, names, plan, next)
            && |nodes| == plan[next].start
  {
  }

  /** `into_rofs`; `None` where the source's conversion of a name index to 32 bits fails. */
  method IntoRofs<T>(obj: RofsObject<T>) returns (r: Option<Rofs<T>>, ghost plan: seq<Planned>)
    requires |obj.root| <= 1 && FitNames(Branch(obj.root)) && Below(Branch(obj.root)) < U32_LIMIT
    ensures r.Some? ==> Flattened(r.value.nodes, r.value.names, plan, obj.root) && r.value.files == obj.files
    ensures r.Some? ==> |r.value.nodes| == Below(Branch(obj.root))
    ensures Below(Branch(obj.root)) * (MAX_NAME + 1) < U32_LIMIT ==> r.Some?
  {
    hide Progress, Emitting, FitNames, Below, Flattened, SegmentOk;
    ghost var root, total := obj.root, Below(Branch(obj.root));
    plan := [Planned(root, 0, 0, [])];
    if |obj.root| == 0 {
      FlattenedEmpty();
      NothingBelow();
      return Some(Rofs([], [], obj.files)), plan;
    }
    var nodes: seq<Node> := [];
    var names: seq<byte> := [];
    var interned: map<Name, nat> := map[];
    var queue := [obj.root];
    var childIndex := 1;
    ghost var next := 0;
    Begin(root);
    while queue != []
      invariant Progress(root, total, nodes, names, interned, queue, childIndex, plan, next)
      decreases total - |nodes|, |queue|
    {
      ProgressFacts(root, total, nodes, names, interned, queue, childIndex, plan, next);
      PopStartsEmission(root, total, nodes, names, interned, queue, childIndex, plan, next);
      var branch := queue[0];
      queue := queue[1..];
      ghost var names0, plan0, more, later := names, plan, [], [];
      var ok, batch;
      ok, batch, names, interned, queue, childIndex, plan, more, later :=
        EmitBranch(branch, names, interned, queue, childIndex, next, |nodes|, total, plan);
      if !ok {
        return None, plan;
      }
      var allNames := names;
      BatchSegment(branch, next, |nodes|, total, batch, names, interned, queue, childIndex, plan);
      var segment := Eytzinger.Eytzingerize(Eytzinger.Sort(batch, x => NodeName(allNames, x)));
      EmissionCompletes(root, total, nodes, names0, more, interned, batch, segment, queue, childIndex, plan0, later,
                        next);
      nodes := nodes + segment;
      next := next + 1;
    }
    Finished(root, total, nodes, names, interned, childIndex, plan, next);
    r := Some(Rofs(nodes, names, obj.files));
  }

  lemma NothingBelow()
    ensures Below(Branch(map[])) == 0
  {
  }
}

/** The tree of branches and leaves behind the filesystem index: building it path by path, and merging
    two of them. */
module Trie {
  import opened Bytes
  import opened Paths

  datatype TreeNode = Branch(children: map<Name, TreeNode>) | Leaf(file: nat)

  type Children = map<Name, TreeNode>

  // ---- lookup ----

  /** The node at a path below `node`. */
  function Find(node: TreeNode, p: Path): Option<TreeNode>
    decreases |p|
  {
    if p == [] then Some(node)
    else if node.Branch? && p[0] in node.children then Find(node.children[p[0]], p[1..])
    else None
  }

  /** The file index stored at a path. */
  function FileAt(t: Children, p: Path): Option<nat> {
    match Find(Branch(t), p)
    case Some(Leaf(i)) => Some(i)
    case _ => None
  }

  predicate HasFile(t: Children, p: Path) { FileAt(t, p).Some? }

  /** One path is a prefix of the other, or equal: only one of them can be a file. */
  predicate Conflict(p: Path, q: Path) { p <= q || q <= p }

  /** Walking `p` ends at an existing node or meets a leaf: nothing can be added at `p`. */
  predicate Blocked(t: Children, p: Path)
    decreases |p|
  {
    p == [] || (p[0] in t && (t[p[0]].Leaf? || Blocked(t[p[0]].children, p[1..])))
  }

  /** Every directory holds something. */
  predicate NoEmptyDirs(node: TreeNode)
    decreases node
  {
    node.Branch? ==> forall c :: c in node.children ==>
      NoEmptyDirs(node.children[c]) && (node.children[c].Branch? ==> node.children[c].children != map[])
  }

  predicate Sound(t: Children) { NoEmptyDirs(Branch(t)) }

  /** A file below a non-empty directory. */
  lemma {:induction false} SomeFile(t: Children) returns (p: Path)
    requires Sound(t) && t != map[]
    ensures p != [] && HasFile(t, p)
    decreases Branch(t)
  {
    var c :| c in t;
    assert NoEmptyDirs(Branch(t).children[c]);
    match t[c]
    case Leaf(_) =>
      p := [c];
      assert Find(t[c], p[1..]) == Some(t[c]);
    case Branch(u) =>
      var q := SomeFile(u);
      p := [c] + q;
      assert p[1..] == q;
  }

  lemma FileAtCons(t: Children, c: Name, p: Path)
    ensures FileAt(t, [c] + p) ==
            if c !in t then None
            else match t[c]
                 case Leaf(i) => if p == [] then Some(i) else None
                 case Branch(u) => FileAt(u, p)
  {
    var q := [c] + p;
    assert q[0] == c && q[1..] == p;
    if c in t {
      assert Find(Branch(t), q) == Find(t[c], p);
      if t[c].Leaf? { assert Find(t[c], p) == if p == [] then Some(t[c]) else None; }
    }
  }

  /** A path is blocked exactly by the files it conflicts with. */
  lemma {:induction false} BlockedIff(t: Children, p: Path)
    requires Sound(t) && p != []
    ensures Blocked(t, p) <==> exists q :: HasFile(t, q) && Conflict(p, q)
    decreases |p|
  {
    var c, rest := p[0], p[1..];
    assert p == [c] + rest;
    if Blocked(t, p) {
      var q := BlockingFile(t, p);
    }
    if q :| HasFile(t, q) && Conflict(p, q) {
      assert q != [];
      assert q == [q[0]] + q[1..];
      FileAtCons(t, q[0], q[1..]);
      assert q[0] == c;
      if t[c].Branch? && rest != [] {
        assert NoEmptyDirs(Branch(t).children[c]);
        assert Conflict(rest, q[1..]) by {
          assert p <= q ==> rest <= q[1..];
          assert q <= p ==> q[1..] <= rest;
        }
        BlockedIff(t[c].children, rest);
      }
    }
  }

  lemma {:induction false} BlockingFile(t: Children, p: Path) returns (q: Path)
    requires Sound(t) && p != [] && Blocked(t, p)
    ensures HasFile(t, q) && Conflict(p, q) && q != []
    decreases |p|
  {
    var c, rest := p[0], p[1..];
    assert p == [c] + rest;
    assert NoEmptyDirs(Branch(t).children[c]);
    match t[c]
    case Leaf(_) =>
      q := [c];
      FileAtCons(t, c, []);
      assert [c] + [] == [c];
    case Branch(u) =>
      var r;
      if rest == [] { r := SomeFile(u); } else { r := BlockingFile(u, rest); }
      q := [c] + r;
      FileAtCons(t, c, r);
  }

  // ---- building ----

  /** One walk of `RofsObject::new`: follow the components, create what is missing, stop at a leaf. */
  function Insert(t: Children, p: Path, file: nat): Children
    decreases |p|
  {
    if p == [] then t
    else if p[0] !in t then t[p[0] := if |p| > 1 then Branch(Insert(map[], p[1..], file)) else Leaf(file)]
    else
      match t[p[0]]
      case Branch(u) => t[p[0] := Branch(Insert(u, p[1..], file))]
      case Leaf(_) => t
  }

  lemma {:induction false} BlockedInsertIsNothing(t: Children, p: Path, file: nat)
    requires Blocked(t, p)
    ensures Insert(t, p, file) == t
    decreases |p|
  {
    if p != [] && t[p[0]].Branch? {
      BlockedInsertIsNothing(t[p[0]].children, p[1..], file);
    }
  }

  /** A walk adds its own file if nothing blocks it, and changes no other. */
  lemma {:induction false} InsertFileAt(t: Children, p: Path, file: nat, q: Path)
    requires p != []
    ensures FileAt(Insert(t, p, file), q) == if q == p && !Blocked(t, p) then Some(file) else FileAt(t, q)
    decreases |p|
  {
    var c, rest := p[0], p[1..];
    assert p == [c] + rest;
    if Blocked(t, p) {
      BlockedInsertIsNothing(t, p, file);
    } else if q != [] {
      var d, qr := q[0], q[1..];
      assert q == [d] + qr;
      FileAtCons(t, d, qr);
      FileAtCons(Insert(t, p, file), d, qr);
      if d == c && rest != [] {
        InsertFileAt(if c in t then t[c].children else map[], rest, file, qr);
        if c !in t { NothingInEmpty(qr); }
      }
    }
  }

  lemma NothingInEmpty(p: Path)
    ensures FileAt(map[], p) == None
  {
  }

  lemma {:induction false} InsertSound(t: Children, p: Path, file: nat)
    requires Sound(t)
    ensures Sound(Insert(t, p, file)) && (p != [] ==> Insert(t, p, file) != map[])
    decreases |p|
  {
    if p == [] {
    } else {
      var u := Insert(t, p, file);
      assert p[0] in u;
      if p[0] in t {
        assert NoEmptyDirs(Branch(t).children[p[0]]);
        if t[p[0]].Branch? { InsertSound(t[p[0]].children, p[1..], file); }
      } else {
        InsertSound(map[], p[1..], file);
      }
      forall c | c in u ensures NoEmptyDirs(u[c]) && (u[c].Branch? ==> u[c].children != map[]) {
        if c != p[0] { assert NoEmptyDirs(Branch(t).children[c]); }
        if c == p[0] && c in t && t[c].Branch? && p[1..] == [] { assert u[c] == t[c]; }
      }
    }
  }

  /** The trie of a list of paths, each with its position as file index. */
  function BuildTrie(paths: seq<Path>): Children {
    if paths == [] then map[]
    else Insert(BuildTrie(paths[..|paths| - 1]), paths[|paths| - 1], |paths| - 1)
  }

  /** The reference: keep a path if it is not empty and conflicts with no path kept before. */
  function Greedy(paths: seq<Path>): map<Path, nat> {
    if paths == [] then map[]
    else
      var kept, p := Greedy(paths[..|paths| - 1]), paths[|paths| - 1];
      if p == [] || exists q :: q in kept && Conflict(p, q) then kept else kept[p := |paths| - 1]
  }

  lemma {:induction false} BuildSound(paths: seq<Path>)
    ensures Sound(BuildTrie(paths))
  {
    if paths == [] {
    } else {
      BuildSound(paths[..|paths| - 1]);
      InsertSound(BuildTrie(paths[..|paths| - 1]), paths[|paths| - 1], |paths| - 1);
    }
  }

  /** Building keeps exactly the greedy prefix-free choice of the paths, in input order. */
  lemma {:induction false} BuildIsGreedy(paths: seq<Path>)
    ensures forall q :: FileAt(BuildTrie(paths), q) == if q in Greedy(paths) then Some(Greedy(paths)[q]) else None
  {
    if paths == [] {
      forall q ensures FileAt(map[], q) == None { NothingInEmpty(q); }
    } else {
      var front, p := paths[..|paths| - 1], paths[|paths| - 1];
      BuildIsGreedy(front);
      BuildSound(front);
      if p != [] {
        var t := BuildTrie(front);
        BlockedIff(t, p);
        forall q ensures HasFile(t, q) <==> q in Greedy(front) {
          assert FileAt(t, q) == if q in Greedy(front) then Some(Greedy(front)[q]) else None;
        }
        forall q ensures FileAt(BuildTrie(paths), q) == if q in Greedy(paths) then Some(Greedy(paths)[q]) else None {
          InsertFileAt(t, p, |paths| - 1, q);
        }
      }
    }
  }

  // ---- canonical form ----

  /** Tries without empty directories are determined by their files. */
  lemma {:induction false} SameFilesIsEqual(t: Children, u: Children)
    requires Sound(t) && Sound(u) && forall p :: FileAt(t, p) == FileAt(u, p)
    ensures t == u
    decreases Branch(t)
  {
    forall c ensures c in t <==> c in u {
      if c in t { ChildInOther(t, u, c); }
      if c in u { ChildInOther(u, t, c); }
    }
    forall c | c in t ensures t[c] == u[c] {
      ChildInOther(t, u, c);
      assert NoEmptyDirs(Branch(t).children[c]) && NoEmptyDirs(Branch(u).children[c]);
      FileAtCons(t, c, []);
      FileAtCons(u, c, []);
      assert FileAt(t, [c] + []) == FileAt(u, [c] + []);
      if t[c].Branch? {
        RootIsNoFile(t[c].children);
        if u[c].Branch? {
          forall p ensures FileAt(t[c].children, p) == FileAt(u[c].children, p) {
            FileAtCons(t, c, p);
            FileAtCons(u, c, p);
            assert FileAt(t, [c] + p) == FileAt(u, [c] + p);
          }
          SameFilesIsEqual(t[c].children, u[c].children);
        }
      } else {
        if u[c].Branch? { RootIsNoFile(u[c].children); }
      }
    }
  }

  lemma RootIsNoFile(t: Children)
    ensures FileAt(t, []) == None
  {
  }

  lemma ChildInOther(t: Children, u: Children, c: Name)
    requires Sound(t) && c in t && forall p :: FileAt(t, p) == FileAt(u, p)
    ensures c in u
  {
    assert NoEmptyDirs(Branch(t).children[c]);
    var p: Path := [];
    if t[c].Branch? { p := SomeFile(t[c].children); }
    FileAtCons(t, c, p);
    FileAtCons(u, c, p);
    assert FileAt(t, [c] + p) == FileAt(u, [c] + p);
  }
}

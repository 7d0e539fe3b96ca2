/** Merging the tries of several archives. */
module Merge {
  import opened Bytes
  import opened Paths
  import opened Trie

  // ---- renumbering ----

  /** `adjust_files`: every file index moved by `offset`. */
  function Adjusted(node: TreeNode, offset: nat): TreeNode
    decreases node
  {
    match node
    case Leaf(i) => Leaf(i + offset)
    case Branch(t) => Branch(map c | c in t :: Adjusted(t[c], offset))
  }

  function AdjustedChildren(t: Children, offset: nat): Children {
    map c | c in t :: Adjusted(t[c], offset)
  }

  lemma {:induction false} AdjustedFileAt(t: Children, offset: nat, p: Path)
    ensures FileAt(AdjustedChildren(t, offset), p)
            == match FileAt(t, p) case None => None case Some(i) => Some(i + offset)
    decreases |p|
  {
    if p == [] {
    } else {
      assert p == [p[0]] + p[1..];
      FileAtCons(t, p[0], p[1..]);
      FileAtCons(AdjustedChildren(t, offset), p[0], p[1..]);
      if p[0] in t && t[p[0]].Branch? {
        AdjustedFileAt(t[p[0]].children, offset, p[1..]);
      }
    }
  }

  lemma {:induction false} AdjustedSound(node: TreeNode, offset: nat)
    requires NoEmptyDirs(node)
    ensures NoEmptyDirs(Adjusted(node, offset))
    decreases node
  {
    if node.Leaf? {
    } else {
      var t := node.children;
      var u := AdjustedChildren(t, offset);
      forall c | c in u ensures NoEmptyDirs(u[c]) && (u[c].Branch? ==> u[c].children != map[]) {
        AdjustedSound(t[c], offset);
        if t[c].Branch? {
          var d :| d in t[c].children;
          assert d in u[c].children;
        }
      }
    }
  }

  // ---- merging ----

  /** What becomes of a name both sides have: two directories are merged, otherwise the first stays. */
  function Merged(a: TreeNode, b: TreeNode): TreeNode
    decreases a
  {
    if a.Branch? && b.Branch?
    then Branch(map c | c in a.children.Keys + b.children.Keys ::
                  if c !in a.children then b.children[c]
                  else if c !in b.children then a.children[c]
                  else Merged(a.children[c], b.children[c]))
    else a
  }

  function MergedChildren(a: Children, b: Children): Children {
    Merged(Branch(a), Branch(b)).children
  }

  lemma {:induction false} MergedSound(a: TreeNode, b: TreeNode)
    requires NoEmptyDirs(a) && NoEmptyDirs(b)
    ensures NoEmptyDirs(Merged(a, b))
    ensures a.Branch? && a.children != map[] ==> Merged(a, b).Branch? && Merged(a, b).children != map[]
    decreases a
  {
    if a.Leaf? || b.Leaf? {
    } else {
      var m := Merged(a, b).children;
      forall c | c in m ensures NoEmptyDirs(m[c]) && (m[c].Branch? ==> m[c].children != map[]) {
        if c in a.children && c in b.children {
          MergedSound(a.children[c], b.children[c]);
          if a.children[c].Branch? { assert a.children[c].children != map[]; }
        }
      }
      if a.children != map[] {
        var c :| c in a.children;
        assert c in m;
      }
    }
  }

  /** The merge keeps every file of the first side, and those of the second that nothing in the first
      blocks. */
  lemma {:induction false} MergedFileAt(a: Children, b: Children, q: Path)
    requires q != []
    ensures FileAt(MergedChildren(a, b), q)
            == if FileAt(a, q).Some? then FileAt(a, q) else if Blocked(a, q) then None else FileAt(b, q)
    decreases |q|
  {
    var c, rest := q[0], q[1..];
    assert q == [c] + rest;
    FileAtCons(a, c, rest);
    FileAtCons(b, c, rest);
    FileAtCons(MergedChildren(a, b), c, rest);
    var m := MergedChildren(a, b);
    if c in a && c in b && a[c].Branch? && b[c].Branch? {
      assert m[c] == Branch(MergedChildren(a[c].children, b[c].children));
      if rest != [] {
        MergedFileAt(a[c].children, b[c].children, rest);
      } else {
        RootIsNoFile(MergedChildren(a[c].children, b[c].children));
        RootIsNoFile(a[c].children);
      }
    } else if c in a {
      assert m[c] == a[c] by { if c in b { assert Merged(a[c], b[c]) == a[c]; } }
      if a[c].Branch? && rest == [] { RootIsNoFile(a[c].children); }
    } else {
      assert c in b ==> m[c] == b[c];
      assert c !in b ==> c !in m;
    }
  }

  lemma {:induction false} UnblockedHasNoFile(t: Children, p: Path)
    requires p != [] && !Blocked(t, p)
    ensures FileAt(t, p) == None
    decreases |p|
  {
    var c, rest := p[0], p[1..];
    assert p == [c] + rest;
    FileAtCons(t, c, rest);
    if c in t && rest != [] { UnblockedHasNoFile(t[c].children, rest); }
  }

  lemma MergedIsSound(a: Children, b: Children)
    requires Sound(a) && Sound(b)
    ensures Sound(MergedChildren(a, b))
  {
    MergedSound(Branch(a), Branch(b));
  }

  lemma HasNoRootFile(t: Children, q: Path)
    requires HasFile(t, q)
    ensures q != []
  {
    RootIsNoFile(t);
  }

  /** Which paths a merge blocks. */
  lemma MergedBlocks(a: Children, b: Children, p: Path)
    requires Sound(a) && Sound(b) && p != []
    ensures Blocked(MergedChildren(a, b), p) <==>
            Blocked(a, p) || exists q :: HasFile(b, q) && !Blocked(a, q) && Conflict(p, q)
  {
    var m := MergedChildren(a, b);
    MergedIsSound(a, b);
    BlockedIff(m, p);
    BlockedIff(a, p);
    if q :| HasFile(m, q) && Conflict(p, q) {
      HasNoRootFile(m, q);
      MergedFileAt(a, b, q);
    }
    if q :| HasFile(a, q) && Conflict(p, q) {
      HasNoRootFile(a, q);
      MergedFileAt(a, b, q);
    }
    if q :| HasFile(b, q) && !Blocked(a, q) && Conflict(p, q) {
      HasNoRootFile(b, q);
      UnblockedHasNoFile(a, q);
      MergedFileAt(a, b, q);
    }
  }

  // ---- associativity ----

  /** No file of `c` is kept out by files of `b` all of which `a` keeps out. */
  ghost predicate NoShadowedBlocks(a: Children, b: Children, c: Children) {
    forall p :: HasFile(c, p) && !Blocked(a, p) && Blocked(b, p) ==>
      exists q :: HasFile(b, q) && !Blocked(a, q) && Conflict(p, q)
  }

  lemma MergeTwice(a: Children, b: Children, c: Children, p: Path)
    requires Sound(a) && Sound(b) && Sound(c) && p != []
    ensures FileAt(MergedChildren(MergedChildren(a, b), c), p)
            == if FileAt(a, p).Some? then FileAt(a, p) else if Blocked(a, p) then None
               else if FileAt(b, p).Some? then FileAt(b, p)
               else if exists q :: HasFile(b, q) && !Blocked(a, q) && Conflict(p, q) then None else FileAt(c, p)
    ensures FileAt(MergedChildren(a, MergedChildren(b, c)), p)
            == if FileAt(a, p).Some? then FileAt(a, p) else if Blocked(a, p) then None
               else if FileAt(b, p).Some? then FileAt(b, p) else if Blocked(b, p) then None else FileAt(c, p)
  {
    MergedFileAt(MergedChildren(a, b), c, p);
    MergedFileAt(a, b, p);
    MergedBlocks(a, b, p);
    MergedFileAt(a, MergedChildren(b, c), p);
    MergedFileAt(b, c, p);
  }

  /** Merging is associative exactly when no file is blocked only through shadowed files. A name that is
      a file in one archive and a directory in another is what breaks it. */
  lemma MergeAssociativeIff(a: Children, b: Children, c: Children)
    requires Sound(a) && Sound(b) && Sound(c)
    ensures MergedChildren(MergedChildren(a, b), c) == MergedChildren(a, MergedChildren(b, c))
            <==> NoShadowedBlocks(a, b, c)
  {
    var l, r := MergedChildren(MergedChildren(a, b), c), MergedChildren(a, MergedChildren(b, c));
    MergedIsSound(a, b);
    MergedIsSound(b, c);
    MergedIsSound(MergedChildren(a, b), c);
    MergedIsSound(a, MergedChildren(b, c));
    if NoShadowedBlocks(a, b, c) {
      forall p ensures FileAt(l, p) == FileAt(r, p) {
        if p == [] {
          RootIsNoFile(l);
          RootIsNoFile(r);
        } else {
          MergeTwice(a, b, c, p);
          if exists q :: HasFile(b, q) && !Blocked(a, q) && Conflict(p, q) { BlockedIff(b, p); }
        }
      }
      SameFilesIsEqual(l, r);
    }
    if l == r {
      forall p | HasFile(c, p) && !Blocked(a, p) && Blocked(b, p)
        ensures exists q :: HasFile(b, q) && !Blocked(a, q) && Conflict(p, q)
      {
        HasNoRootFile(c, p);
        UnblockedHasNoFile(a, p);
        MergeTwice(a, b, c, p);
        if FileAt(b, p).Some? { assert HasFile(b, p) && Conflict(p, p); }
      }
    }
  }

  /** If no path of the second is a proper prefix of one of the third or the other way round, the
      condition holds. */
  lemma PrefixFreeHasNoShadow(a: Children, b: Children, c: Children)
    requires Sound(a) && Sound(b) && Sound(c)
    requires forall p, q :: HasFile(b, p) && HasFile(c, q) && Conflict(q, p) ==> p == q
    ensures NoShadowedBlocks(a, b, c)
  {
    forall p | HasFile(c, p) && !Blocked(a, p) && Blocked(b, p)
      ensures exists q :: HasFile(b, q) && !Blocked(a, q) && Conflict(p, q)
    {
      HasNoRootFile(c, p);
      BlockedIff(b, p);
      var q :| HasFile(b, q) && Conflict(p, q);
      assert q == p;
    }
  }

  /** A case in point: `d` is a directory with `f` in the first trie, a file in the second, and a directory
      with `e` in the third. Merged from the left `d/e` is there; merged from the right it is not. */
  lemma GroupingCanMatter(d: Name, e: Name, f: Name)
    requires e != f
    ensures var a, b, c := BuildTrie([[d, f]]), BuildTrie([[d]]), BuildTrie([[d, e]]);
            && !NoShadowedBlocks(a, b, c)
            && HasFile(MergedChildren(MergedChildren(a, b), c), [d, e])
            && !HasFile(MergedChildren(a, MergedChildren(b, c)), [d, e])
  {
    hide FileAt, Blocked, BuildTrie, NoShadowedBlocks;
    var a, b, c := BuildTrie([[d, f]]), BuildTrie([[d]]), BuildTrie([[d, e]]);
    assert !([d, e] <= [d, f]) && !([d, f] <= [d, e]) && [d] <= [d, e] && [d] <= [d, f] by {
      assert [d, e][1] != [d, f][1];
    }
    OnePathTrie([d, f], [d, e]);
    OnePathTrie([d, f], [d]);
    OnePathTrie([d], [d, e]);
    OnePathTrie([d, e], [d, e]);
    forall q | HasFile(b, q) ensures Blocked(a, q) {
      HasNoRootFile(b, q);
      OnePathTrie([d], q);
    }
    MergeTwice(a, b, c, [d, e]);
    ShadowAt(a, b, c, [d, e]);
  }

  lemma ShadowAt(a: Children, b: Children, c: Children, p: Path)
    requires HasFile(c, p) && !Blocked(a, p) && Blocked(b, p) && forall q :: HasFile(b, q) ==> Blocked(a, q)
    ensures !NoShadowedBlocks(a, b, c)
  {
  }

  /** The trie of one path. */
  lemma OnePathTrie(p: Path, q: Path)
    requires p != [] && q != []
    ensures Sound(BuildTrie([p]))
    ensures HasFile(BuildTrie([p]), q) <==> p == q
    ensures Blocked(BuildTrie([p]), q) <==> Conflict(p, q)
  {
    var t := BuildTrie([p]);
    BuildSound([p]);
    BuildIsGreedy([p]);
    assert [p][..0] == [];
    assert Greedy([p]) == map[p := 0];
    BlockedIff(t, q);
    assert HasFile(t, p);
    if r :| HasFile(t, r) && Conflict(q, r) { assert r == p; }
  }

  // ---- merging equals building ----

  /** Inserting on the merged side or into the second trie first: the same, when the second trie conflicts
      with the path only by holding it. */
  lemma InsertThenMerge(a: Children, b: Children, p: Path, i: nat)
    requires Sound(a) && Sound(b) && p != []
    requires forall q :: HasFile(b, q) && Conflict(p, q) ==> q == p
    ensures MergedChildren(a, Insert(b, p, i)) == Insert(MergedChildren(a, b), p, i)
  {
    var ab := MergedChildren(a, b);
    var l, r := MergedChildren(a, Insert(b, p, i)), Insert(ab, p, i);
    InsertSound(b, p, i);
    MergedIsSound(a, b);
    MergedIsSound(a, Insert(b, p, i));
    InsertSound(ab, p, i);
    BlockedIff(b, p);
    MergedBlocks(a, b, p);
    if Blocked(b, p) && !Blocked(a, p) {
      assert HasFile(b, p) && Conflict(p, p);
    }
    forall q ensures FileAt(l, q) == FileAt(r, q) {
      if q == [] {
        RootIsNoFile(l);
        RootIsNoFile(r);
      } else {
        MergedFileAt(a, Insert(b, p, i), q);
        InsertFileAt(b, p, i, q);
        InsertFileAt(ab, p, i, q);
        MergedFileAt(a, b, q);
        if FileAt(a, q).Some? && !Blocked(a, q) { UnblockedHasNoFile(a, q); }
      }
    }
    SameFilesIsEqual(l, r);
  }

  /** No path is a proper prefix of another. */
  predicate PrefixFree(paths: seq<Path>) {
    forall i, j :: 0 <= i < |paths| && 0 <= j < |paths| && paths[i] <= paths[j] ==> paths[i] == paths[j]
  }

  lemma {:induction false} BuiltFilesArePaths(paths: seq<Path>, q: Path)
    requires HasFile(BuildTrie(paths), q)
    ensures q in paths
  {
    if paths == [] {
      NothingInEmpty(q);
    } else {
      var front, p := paths[..|paths| - 1], paths[|paths| - 1];
      if p != [] { InsertFileAt(BuildTrie(front), p, |paths| - 1, q); }
      if q != p { BuiltFilesArePaths(front, q); }
    }
  }

  lemma {:induction false} AdjustedInsert(t: Children, p: Path, i: nat, offset: nat)
    ensures AdjustedChildren(Insert(t, p, i), offset) == Insert(AdjustedChildren(t, offset), p, i + offset)
    decreases |p|
  {
    if p == [] {
    } else {
      if p[0] !in t {
        if |p| > 1 {
          AdjustedInsert(map[], p[1..], i, offset);
          assert AdjustedChildren(map[], offset) == map[];
          assert AdjustedChildren(Insert(t, p, i), offset)[p[0]]
              == Branch(AdjustedChildren(Insert(map[], p[1..], i), offset));
        }
        assert AdjustedChildren(Insert(t, p, i), offset) == Insert(AdjustedChildren(t, offset), p, i + offset);
      } else if t[p[0]].Branch? {
        AdjustedInsert(t[p[0]].children, p[1..], i, offset);
        assert AdjustedChildren(t, offset)[p[0]] == Branch(AdjustedChildren(t[p[0]].children, offset));
        assert AdjustedChildren(Insert(t, p, i), offset)[p[0]]
               == Branch(AdjustedChildren(Insert(t[p[0]].children, p[1..], i), offset));
        assert AdjustedChildren(Insert(t, p, i), offset) == Insert(AdjustedChildren(t, offset), p, i + offset);
      }
    }
  }

  lemma InsertNothing(t: Children, i: nat)
    ensures Insert(t, [], i) == t
  {
  }

  lemma MergeNothing(t: Children, offset: nat)
    ensures MergedChildren(t, AdjustedChildren(BuildTrie([]), offset)) == t
  {
    assert AdjustedChildren(map[], offset) == map[];
  }

  lemma PrefixFreeFront(front: seq<Path>, p: Path)
    requires PrefixFree(front + [p])
    ensures PrefixFree(front)
  {
    assert forall i :: 0 <= i < |front| ==> (front + [p])[i] == front[i];
  }

  lemma BuildOneMore(front: seq<Path>, p: Path)
    ensures BuildTrie(front + [p]) == Insert(BuildTrie(front), p, |front|)
  {
    assert (front + [p])[..|front + [p]| - 1] == front;
  }

  /** Building two lists and merging is building their concatenation, if the second list is prefix-free;
      the first one, and conflicts between the two, are unrestricted. */
  lemma {:induction false} MergeIsBuildOfConcat(xs: seq<Path>, ys: seq<Path>)
    requires PrefixFree(ys)
    ensures MergedChildren(BuildTrie(xs), AdjustedChildren(BuildTrie(ys), |xs|)) == BuildTrie(xs + ys)
    decreases |ys|
  {
    hide BuildTrie, Insert, MergedChildren, AdjustedChildren, PrefixFree;
    if ys == [] {
      assert xs + ys == xs;
      MergeNothing(BuildTrie(xs), |xs|);
    } else {
      var front, p, n := ys[..|ys| - 1], ys[|ys| - 1], |ys| - 1;
      assert ys == front + [p] && xs + ys == (xs + front) + [p];
      PrefixFreeFront(front, p);
      MergeIsBuildOfConcat(xs, front);
      BuildOneMore(front, p);
      BuildOneMore(xs + front, p);
      AdjustedInsert(BuildTrie(front), p, n, |xs|);
      if p == [] {
        InsertNothing(AdjustedChildren(BuildTrie(front), |xs|), n + |xs|);
        InsertNothing(BuildTrie(xs + front), n + |xs|);
      } else {
        InsertLast(xs, front, p);
      }
    }
  }

  lemma InsertLast(xs: seq<Path>, front: seq<Path>, p: Path)
    requires PrefixFree(front + [p]) && p != []
    ensures var b, n := AdjustedChildren(BuildTrie(front), |xs|), |front| + |xs|;
            MergedChildren(BuildTrie(xs), Insert(b, p, n)) == Insert(MergedChildren(BuildTrie(xs), b), p, n)
  {
    hide Insert, MergedChildren, BuildTrie, PrefixFree, Adjusted, FileAt, NoEmptyDirs;
    BuildSound(xs);
    BuildSound(front);
    var b := AdjustedChildren(BuildTrie(front), |xs|);
    AdjustedIsSound(BuildTrie(front), |xs|);
    forall q | HasFile(b, q) && Conflict(p, q) ensures q == p {
      AdjustedFileAt(BuildTrie(front), |xs|, q);
      BuiltFilesArePaths(front, q);
      LastConflictsOnlyWithItself(front, p, q);
    }
    InsertThenMerge(BuildTrie(xs), b, p, |front| + |xs|);
  }

  lemma AdjustedIsSound(t: Children, offset: nat)
    requires Sound(t)
    ensures Sound(AdjustedChildren(t, offset))
  {
    AdjustedSound(Branch(t), offset);
  }

  lemma LastConflictsOnlyWithItself(front: seq<Path>, p: Path, q: Path)
    requires PrefixFree(front + [p]) && q in front && Conflict(p, q)
    ensures p == q
  {
    var k :| 0 <= k < |front| && front[k] == q;
    assert (front + [p])[k] == q && (front + [p])[|front|] == p;
  }
}

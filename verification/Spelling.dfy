/** Paths octet by octet: what separates components, which of them resolving keeps, and what case folding
    changes, with every octet written out. */
module Spelling {
  import opened Bytes
  import opened Paths
  import opened Trie
  import opened Object
  import opened Flatten
  import opened Index
  import opened Lookup

  lemma PieceIsOne(config: Config, c: Name)
    requires IsPiece(config, c)
    ensures Split(config, c) == [c]
  {
    SplitPiece(config, c, []);
  }

  /** The pieces of a path behind its last separator. */
  lemma PieceBehind(config: Config, x: seq<byte>, sep: byte, c: Name)
    requires IsSeparator(config, sep) && IsPiece(config, c)
    ensures Split(config, x + [sep] + c) == Split(config, x) + [c]
  {
    SplitAtSeparator(config, x, sep, c);
    PieceIsOne(config, c);
  }

  /** Resolving, piece by piece from the left, and so for every path: an empty piece and `.` are dropped,
      `..` takes the last component away where there is one, and any other piece is a component. */
  lemma ResolvedPiece(config: Config, x: seq<byte>, sep: byte, c: Name)
    requires IsSeparator(config, sep) && IsPiece(config, c)
    ensures Canonical(config, c) == if c == [] || c == [0x2E] || c == [0x2E, 0x2E] then [] else [c]
    ensures Canonical(config, x + [sep] + c)
            == var before := Canonical(config, x);
               if c == [] || c == [0x2E] then before
               else if c == [0x2E, 0x2E] then (if before == [] then [] else before[..|before| - 1])
               else before + [c]
  {
    PieceIsOne(config, c);
    PieceBehind(config, x, sep, c);
    ResolveConcat([], Split(config, x), [c]);
    ResolveOne([], c);
    ResolveOne(Canonical(config, x), c);
  }

  lemma ResolveOne(stack: Path, c: Name)
    ensures Resolve(stack, [c]) == Step(stack, c)
  {
    assert [c][1..] == [];
  }

  /** Splitting without resolving. */
  lemma UnresolvedPiece(config: Config, x: seq<byte>, sep: byte, c: Name)
    requires IsSeparator(config, sep) && IsPiece(config, c)
    ensures Components(config, c) == if c == [] || c == [0x2E] then [] else [c]
    ensures Components(config, x + [sep] + c)
            == if c == [] || c == [0x2E] then Components(config, x) else Components(config, x) + [c]
  {
    PieceIsOne(config, c);
    PieceBehind(config, x, sep, c);
    WithoutSkippedConcat(Split(config, x), [c]);
    assert [c][1..] == [];
  }

  lemma {:induction false} WithoutSkippedConcat(a: seq<Name>, b: seq<Name>)
    ensures WithoutSkipped(a + b) == WithoutSkipped(a) + WithoutSkipped(b)
  {
    if a == [] {
      assert a + b == b;
    } else {
      assert (a + b)[0] == a[0] && (a + b)[1..] == a[1..] + b;
      WithoutSkippedConcat(a[1..], b);
    }
  }

  /** Every path is a piece, or one behind a separator behind a shorter path: the equations above say what
      becomes of each. */
  lemma {:induction false} LastPiece(config: Config, path: seq<byte>) returns (x: seq<byte>, sep: byte, c: Name)
    ensures IsPiece(config, c) && IsSeparator(config, sep)
    ensures path == c || path == x + [sep] + c
  {
    if path == [] {
      x, sep, c := [], 0x2F, [];
    } else {
      var front, last := path[..|path| - 1], path[|path| - 1];
      assert path == front + [last];
      if IsSeparator(config, last) {
        x, sep, c := front, last, [];
        assert front + [last] + [] == path;
      } else {
        x, sep, c := LastPiece(config, front);
        if front == c {
          c := path;
        } else {
          assert path == x + [sep] + (c + [last]);
          c := c + [last];
        }
      }
    }
  }

  /** What is looked up: as it is without `..`; `.` for nothing; the resolved components behind `/` otherwise. */
  lemma NormalizedOctets(config: Config, path: seq<byte>)
    ensures path == [] ==> Normalized(config, path) == [0x2E]
    ensures path != [] && (forall i :: 0 <= i < |path| - 1 ==> !(path[i] == 0x2E && path[i + 1] == 0x2E)) ==>
              Normalized(config, path) == path
    ensures (exists i :: 0 <= i < |path| - 1 && path[i] == 0x2E && path[i + 1] == 0x2E) ==>
              Canonical(config, path)
              == if Normalized(config, path) == [] then [] else Split(Slash, Normalized(config, path))
  {
    if HasDotDot(path) {
      PiecesHaveNoSeparator(config, path);
      ResolvedAreProper(config, [], Split(config, path));
      JoinThenComponents(Slash, Canonical(config, path));
      ProperNotEmpty(config, Canonical(config, path));
    }
  }

  lemma ProperNotEmpty(config: Config, cs: Path)
    requires forall c :: c in cs ==> Proper(config, c)
    ensures cs == [] <==> Join(cs) == []
  {
    if cs != [] { assert cs[0] in cs; }
  }

  /** The key of a path: its resolved components, 0x41 to 0x5A each raised by 0x20. */
  lemma KeyOctets(config: Config, path: seq<byte>)
    ensures |Key(config, path)| == |Canonical(config, path)|
    ensures forall i :: 0 <= i < |Key(config, path)| ==> |Key(config, path)[i]| == |Canonical(config, path)[i]|
    ensures forall i, j :: 0 <= i < |Key(config, path)| && 0 <= j < |Key(config, path)[i]| ==>
              var c := Canonical(config, path)[i][j];
              Key(config, path)[i][j] == if c in {0x41, 0x42, 0x43, 0x44, 0x45, 0x46, 0x47, 0x48, 0x49, 0x4A, 0x4B,
                                                  0x4C, 0x4D, 0x4E, 0x4F, 0x50, 0x51, 0x52, 0x53, 0x54, 0x55, 0x56,
                                                  0x57, 0x58, 0x59, 0x5A} then c + 32 else c
  {
  }

  /** Paths that differ in the case of ASCII letters only have one key and lead to one inode. */
  lemma CaseMakesNoDifference<T>(config: Config, fs: Rofs<T>, plan: seq<Planned>, root: Children, parentInode: u64,
                                 p: seq<byte>, q: seq<byte>)
    requires Flattened(fs.nodes, fs.names, plan, root) && LowerNames(Branch(root)) && SameUpToCase(p, q)
    ensures Key(config, p) == Key(config, q) && InRange(fs.nodes)
    ensures InodeFound(config, fs, parentInode, p) == InodeFound(config, fs, parentInode, q)
  {
    hide Flattened, LowerNames, InRange, InodeFound, Key;
    RespellingKeepsKey(config, p, q);
    SameKeySameInode(config, fs, plan, root, parentInode, p, q);
  }

  /** In the archives' configuration `\` is `/`. */
  lemma BackslashIsSlash<T>(fs: Rofs<T>, plan: seq<Planned>, root: Children, parentInode: u64, x: seq<byte>,
                            y: seq<byte>)
    requires Flattened(fs.nodes, fs.names, plan, root) && LowerNames(Branch(root))
    ensures Key(SlashOrBackslash, x + [0x5C] + y) == Key(SlashOrBackslash, x + [0x2F] + y) && InRange(fs.nodes)
    ensures InodeFound(SlashOrBackslash, fs, parentInode, x + [0x5C] + y)
            == InodeFound(SlashOrBackslash, fs, parentInode, x + [0x2F] + y)
  {
    hide Flattened, LowerNames, InRange, InodeFound;
    CanonicalAtSeparator(SlashOrBackslash, x, 0x5C, y);
    CanonicalAtSeparator(SlashOrBackslash, x, 0x2F, y);
    hide Key;
    SameKeySameInode(SlashOrBackslash, fs, plan, root, parentInode, x + [0x5C] + y, x + [0x2F] + y);
  }

  /** In the other it is an octet of a name. */
  lemma BackslashInName(c: Name)
    requires 0x5C in c && 0x2F !in c
    ensures Components(Slash, c) == [c] == Canonical(Slash, c)
  {
    ResolvedPiece(Slash, [], 0x2F, c);
    UnresolvedPiece(Slash, [], 0x2F, c);
  }

  /** A plain name is one component in either configuration. */
  lemma PlainName(config: Config, c: Name)
    requires c != [] && 0x2F !in c && 0x5C !in c && c != [0x2E] && c != [0x2E, 0x2E]
    ensures Components(config, c) == [c] == Canonical(config, c)
  {
    ResolvedPiece(config, [], 0x2F, c);
    UnresolvedPiece(config, [], 0x2F, c);
  }
}

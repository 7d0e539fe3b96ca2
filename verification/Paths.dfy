/** Paths as octet strings: splitting, normalising, folding ASCII case. */
module Paths {
  import opened Bytes

  type Name = seq<byte>
  type Path = seq<Name>

  const SLASH: byte := 0x2F
  const BACKSLASH: byte := 0x5C
  const DOT: byte := 0x2E

  /** The separators of a filesystem: `/` alone, or `/` and `\`. */
  datatype Config = Slash | SlashOrBackslash {
    predicate Separates(c: byte) { c == SLASH || (SlashOrBackslash? && c == BACKSLASH) }
  }

  /** `str::split`: at least one piece, empty pieces included. */
  function Split(config: Config, s: seq<byte>): (r: seq<Name>)
    ensures |r| >= 1
  {
    if s == [] then [[]]
    else if config.Separates(s[0]) then [[]] + Split(config, s[1..])
    else
      var rest := Split(config, s[1..]);
      [[s[0]] + rest[0]] + rest[1..]
  }

  predicate Skipped(piece: Name) { piece == [] || piece == [DOT] }

  function WithoutSkipped(pieces: seq<Name>): Path {
    if pieces == [] then []
    else if Skipped(pieces[0]) then WithoutSkipped(pieces[1..])
    else [pieces[0]] + WithoutSkipped(pieces[1..])
  }

  /** `components`. */
  function Components(config: Config, path: seq<byte>): Path {
    WithoutSkipped(Split(config, path))
  }

  predicate HasDotDot(s: seq<byte>) {
    exists i :: 0 <= i < |s| - 1 && s[i] == DOT && s[i + 1] == DOT
  }

  const DOT_DOT: Name := [DOT, DOT]

  /** What `..` does to the components before it. */
  function Step(stack: Path, piece: Name): Path {
    if Skipped(piece) then stack
    else if piece == DOT_DOT then (if stack == [] then [] else stack[..|stack| - 1])
    else stack + [piece]
  }

  function Resolve(stack: Path, pieces: seq<Name>): Path
    decreases |pieces|
  {
    if pieces == [] then stack else Resolve(Step(stack, pieces[0]), pieces[1..])
  }

  /** The components of a path once every `..` is resolved. */
  function Canonical(config: Config, path: seq<byte>): Path {
    Resolve([], Split(config, path))
  }

  function Join(components: Path): seq<byte> {
    if components == [] then []
    else if |components| == 1 then components[0]
    else components[0] + [SLASH] + Join(components[1..])
  }

  function Normalized(config: Config, path: seq<byte>): seq<byte> {
    if path == [] then [DOT]
    else if !HasDotDot(path) then path
    else Join(Canonical(config, path))
  }

  /** `normalize_path`. */
  method NormalizePath(config: Config, path: seq<byte>) returns (r: seq<byte>)
    ensures r == Normalized(config, path)
  {
    if path == [] {
      return [DOT];
    }
    if !HasDotDot(path) {
      return path;
    }
    var components: Path := [];
    var pieces := Split(config, path);
    for i := 0 to |pieces|
      invariant Resolve(components, pieces[i..]) == Canonical(config, path)
    {
      var component := pieces[i];
      assert pieces[i..][0] == component && pieces[i..][1..] == pieces[i + 1..];
      if component == [] || component == [DOT] {
      } else if component == DOT_DOT {
        if components != [] {
          components := components[..|components| - 1];
        }
      } else {
        components := components + [component];
      }
    }
    r := Join(components);
  }

  /** A proper component: what a normalised path is made of. */
  predicate Proper(config: Config, c: Name) {
    !Skipped(c) && c != DOT_DOT && forall i :: 0 <= i < |c| ==> !config.Separates(c[i])
  }

  lemma {:induction false} FirstPieceIsPrefix(config: Config, s: seq<byte>)
    ensures Split(config, s)[0] <= s
  {
    if s != [] && !config.Separates(s[0]) {
      FirstPieceIsPrefix(config, s[1..]);
    }
  }

  lemma {:induction false} PiecesHaveNoSeparator(config: Config, s: seq<byte>)
    ensures forall p, i :: p in Split(config, s) && 0 <= i < |p| ==> !config.Separates(p[i])
  {
    if s == [] {
    } else {
      PiecesHaveNoSeparator(config, s[1..]);
    }
  }

  lemma {:induction false} DotDotPieceIsDotDot(config: Config, s: seq<byte>)
    requires DOT_DOT in Split(config, s)
    ensures HasDotDot(s)
  {
    if s == [] {
    } else {
      var rest := Split(config, s[1..]);
      if DOT_DOT in rest && (config.Separates(s[0]) || DOT_DOT in rest[1..]) {
        DotDotPieceIsDotDot(config, s[1..]);
        var i :| 0 <= i < |s[1..]| - 1 && s[1..][i] == DOT && s[1..][i + 1] == DOT;
        assert s[i + 1] == DOT && s[i + 2] == DOT;
      } else {
        FirstPieceIsPrefix(config, s[1..]);
        var piece := [s[0]] + rest[0];
        assert piece == DOT_DOT && piece[1..] == rest[0] && piece[0] == s[0];
        assert rest[0][0] == s[1..][0];
      }
    }
  }

  lemma {:induction false} ResolveWithoutDotDot(stack: Path, pieces: seq<Name>)
    requires DOT_DOT !in pieces
    ensures Resolve(stack, pieces) == stack + WithoutSkipped(pieces)
    decreases |pieces|
  {
    if pieces == [] {
    } else {
      ResolveWithoutDotDot(Step(stack, pieces[0]), pieces[1..]);
    }
  }

  lemma {:induction false} ResolvedAreProper(config: Config, stack: Path, pieces: seq<Name>)
    requires forall c :: c in stack ==> Proper(config, c)
    requires forall p, i :: p in pieces && 0 <= i < |p| ==> !config.Separates(p[i])
    ensures forall c :: c in Resolve(stack, pieces) ==> Proper(config, c)
    decreases |pieces|
  {
    if pieces == [] {
    } else {
      assert pieces[0] in pieces;
      ResolvedAreProper(config, Step(stack, pieces[0]), pieces[1..]);
    }
  }

  lemma {:induction false} SplitPiece(config: Config, c: Name, rest: seq<byte>)
    requires forall i :: 0 <= i < |c| ==> !config.Separates(c[i])
    ensures Split(config, c + [SLASH] + rest) == [c] + Split(config, rest)
    ensures Split(config, c) == [c]
  {
    if c == [] {
      assert ([] + [SLASH] + rest)[1..] == rest;
    } else {
      SplitPiece(config, c[1..], rest);
      assert (c + [SLASH] + rest)[1..] == c[1..] + [SLASH] + rest;
      assert [c[0]] + c[1..] == c;
    }
  }

  /** Joining proper components and splitting again gives them back. */
  lemma {:induction false} JoinThenComponents(config: Config, cs: Path)
    requires forall c :: c in cs ==> Proper(config, c)
    ensures Components(config, Join(cs)) == cs
    ensures cs != [] ==> Split(config, Join(cs)) == cs
  {
    if cs == [] {
    } else {
      assert cs[0] in cs;
      if |cs| == 1 {
        SplitPiece(config, cs[0], []);
        assert cs == [cs[0]];
      } else {
        SplitPiece(config, cs[0], Join(cs[1..]));
        JoinThenComponents(config, cs[1..]);
      }
      ProperAreKept(config, cs);
    }
  }

  lemma {:induction false} ProperAreKept(config: Config, cs: Path)
    requires forall c :: c in cs ==> Proper(config, c)
    ensures WithoutSkipped(cs) == cs
  {
    if cs == [] {
    } else {
      assert cs[0] in cs;
      ProperAreKept(config, cs[1..]);
    }
  }

  /** Whatever shortcut normalisation takes, its components are the resolved ones. */
  lemma NormalizedComponents(config: Config, path: seq<byte>)
    ensures Components(config, Normalized(config, path)) == Canonical(config, path)
  {
    if path == [] {
      assert Split(config, [DOT]) == [[DOT]] by { SplitPiece(config, [DOT], []); }
      ResolveWithoutDotDot([], [[]]);
      assert WithoutSkipped([[DOT]][1..]) == [] && WithoutSkipped([[]][1..]) == [];
    } else if !HasDotDot(path) {
      if DOT_DOT in Split(config, path) { DotDotPieceIsDotDot(config, path); }
      ResolveWithoutDotDot([], Split(config, path));
    } else {
      PiecesHaveNoSeparator(config, path);
      ResolvedAreProper(config, [], Split(config, path));
      JoinThenComponents(config, Canonical(config, path));
    }
  }

  // ---- ASCII case ----

  function LowerByte(c: byte): byte { if 0x41 <= c <= 0x5A then c + 0x20 else c }

  function Lower(s: seq<byte>): (r: seq<byte>)
    ensures |r| == |s| && forall i :: 0 <= i < |s| ==> r[i] == if 0x41 <= s[i] <= 0x5A then s[i] + 32 else s[i]
  {
    seq(|s|, i requires 0 <= i < |s| => LowerByte(s[i]))
  }

  function LowerAll(p: Path): (r: Path)
    ensures |r| == |p| && forall i :: 0 <= i < |p| ==> r[i] == Lower(p[i])
  {
    seq(|p|, i requires 0 <= i < |p| => Lower(p[i]))
  }

  lemma LowerCons(c: byte, s: seq<byte>)
    ensures Lower([c] + s) == [LowerByte(c)] + Lower(s)
  {
  }

  lemma LowerAllCons(c: Name, p: Path)
    ensures LowerAll([c] + p) == [Lower(c)] + LowerAll(p)
  {
  }

  lemma {:induction false} SplitLower(config: Config, s: seq<byte>)
    ensures Split(config, Lower(s)) == LowerAll(Split(config, s))
  {
    if s == [] {
      LowerAllCons([], []);
      assert Lower([]) == [] && LowerAll([]) == [];
    } else {
      SplitLower(config, s[1..]);
      assert s == [s[0]] + s[1..];
      LowerCons(s[0], s[1..]);
      var rest := Split(config, s[1..]);
      assert config.Separates(LowerByte(s[0])) == config.Separates(s[0]);
      if config.Separates(s[0]) {
        LowerAllCons([], rest);
        assert Lower([]) == [];
      } else {
        assert rest == [rest[0]] + rest[1..];
        LowerAllCons(rest[0], rest[1..]);
        LowerAllCons([s[0]] + rest[0], rest[1..]);
        LowerCons(s[0], rest[0]);
      }
    }
  }

  lemma LowerKeepsKind(piece: Name)
    ensures Skipped(Lower(piece)) <==> Skipped(piece)
    ensures Lower(piece) == DOT_DOT <==> piece == DOT_DOT
  {
    if |piece| == 1 { assert piece == [piece[0]] && Lower(piece) == [LowerByte(piece[0])]; }
    if |piece| == 2 { assert piece == [piece[0], piece[1]]
                     && Lower(piece) == [LowerByte(piece[0]), LowerByte(piece[1])]; }
  }

  lemma {:induction false} ResolveLower(stack: Path, pieces: seq<Name>)
    ensures Resolve(LowerAll(stack), LowerAll(pieces)) == LowerAll(Resolve(stack, pieces))
    decreases |pieces|
  {
    if pieces == [] {
    } else {
      LowerKeepsKind(pieces[0]);
      assert LowerAll(pieces)[1..] == LowerAll(pieces[1..]);
      assert Step(LowerAll(stack), Lower(pieces[0])) == LowerAll(Step(stack, pieces[0]));
      ResolveLower(Step(stack, pieces[0]), pieces[1..]);
    }
  }

  /** Folding case commutes with resolving. */
  lemma CanonicalLower(config: Config, path: seq<byte>)
    ensures Canonical(config, Lower(path)) == LowerAll(Canonical(config, path))
  {
    SplitLower(config, path);
    ResolveLower([], Split(config, path));
    assert LowerAll([]) == [];
  }

  lemma LowerIsIdempotent(p: Path)
    ensures LowerAll(LowerAll(p)) == LowerAll(p)
  {
    forall i | 0 <= i < |p| ensures LowerAll(LowerAll(p))[i] == LowerAll(p)[i] {
      assert Lower(Lower(p[i])) == Lower(p[i]);
    }
  }

  // ---- spellings, octet by octet ----

  /** `/` in either configuration, `\` only in that of the archives. */
  predicate IsSeparator(config: Config, c: byte) {
    c == 0x2F || (config == SlashOrBackslash && c == 0x5C)
  }

  /** A piece of a path: no separator in it. */
  predicate IsPiece(config: Config, c: Name) {
    0x2F !in c && (config == SlashOrBackslash ==> 0x5C !in c)
  }

  /** One octet is an upper-case letter, the other the same letter in lower case. */
  predicate CasePair(a: byte, b: byte) {
    0x41 <= a <= 0x5A && b == a + (0x61 - 0x41)
  }

  /** Octet for octet the same, up to the case of ASCII letters. */
  predicate SameUpToCase(p: seq<byte>, q: seq<byte>) {
    |p| == |q| && forall i :: 0 <= i < |p| ==> p[i] == q[i] || CasePair(p[i], q[i]) || CasePair(q[i], p[i])
  }

  lemma FoldedAlike(p: seq<byte>, q: seq<byte>)
    requires SameUpToCase(p, q)
    ensures Lower(p) == Lower(q)
  {
  }

  lemma SplitCons(config: Config, c: byte, s: seq<byte>)
    ensures Split(config, [c] + s) == if IsSeparator(config, c) then [[]] + Split(config, s)
                                      else [[c] + Split(config, s)[0]] + Split(config, s)[1..]
  {
    assert ([c] + s)[0] == c && ([c] + s)[1..] == s;
  }

  lemma {:induction false} SplitAtSeparator(config: Config, x: seq<byte>, sep: byte, y: seq<byte>)
    requires IsSeparator(config, sep)
    ensures Split(config, x + [sep] + y) == Split(config, x) + Split(config, y)
    decreases |x|
  {
    if x == [] {
      assert x + [sep] + y == [sep] + y;
      SplitCons(config, sep, y);
    } else {
      var c, u := x[0], x[1..];
      assert x == [c] + u && x + [sep] + y == [c] + (u + [sep] + y);
      SplitAtSeparator(config, u, sep, y);
      SplitCons(config, c, u);
      SplitCons(config, c, u + [sep] + y);
      hide Split, Config.Separates, IsSeparator;
      HeadOfConcat(Split(config, u), Split(config, y), c);
    }
  }

  lemma HeadOfConcat(rest: Path, more: Path, c: byte)
    requires rest != []
    ensures [[]] + (rest + more) == ([[]] + rest) + more
    ensures [[c] + (rest + more)[0]] + (rest + more)[1..] == ([[c] + rest[0]] + rest[1..]) + more
  {
    assert (rest + more)[0] == rest[0] && (rest + more)[1..] == rest[1..] + more;
  }

  lemma {:induction false} ResolveConcat(stack: Path, xs: seq<Name>, ys: seq<Name>)
    ensures Resolve(stack, xs + ys) == Resolve(Resolve(stack, xs), ys)
    decreases |xs|
  {
    if xs == [] {
      assert xs + ys == ys;
    } else {
      assert (xs + ys)[1..] == xs[1..] + ys;
      ResolveConcat(Step(stack, xs[0]), xs[1..], ys);
    }
  }

  /** Resolving a path at a separator, of either kind: the second part continues where the first one ends. */
  lemma CanonicalAtSeparator(config: Config, x: seq<byte>, sep: byte, y: seq<byte>)
    requires IsSeparator(config, sep)
    ensures Canonical(config, x + [sep] + y) == Resolve(Canonical(config, x), Split(config, y))
  {
    SplitAtSeparator(config, x, sep, y);
    ResolveConcat([], Split(config, x), Split(config, y));
  }

  /** An empty or `.` component between two separators changes nothing. */
  lemma SkippedComponent(config: Config, x: seq<byte>, sep1: byte, piece: Name, sep2: byte, y: seq<byte>)
    requires IsSeparator(config, sep1) && IsSeparator(config, sep2) && (piece == [] || piece == [0x2E])
    ensures Canonical(config, x + [sep1] + (piece + [sep2] + y)) == Canonical(config, x + [sep1] + y)
  {
    CanonicalAtSeparator(config, x, sep1, piece + [sep2] + y);
    CanonicalAtSeparator(config, x, sep1, y);
    SplitAtSeparator(config, piece, sep2, y);
    SplitSkipped(config, piece);
    var all := [piece] + Split(config, y);
    assert all[0] == piece && all[1..] == Split(config, y);
  }

  lemma SplitSkipped(config: Config, piece: Name)
    requires Skipped(piece)
    ensures Split(config, piece) == [piece]
  {
    if piece == [DOT] {
      SplitCons(config, DOT, []);
      assert [DOT] + [] == [DOT];
    }
  }

  /** Neither does a separator before or behind the path. */
  lemma OuterSeparator(config: Config, sep: byte, x: seq<byte>)
    requires IsSeparator(config, sep)
    ensures Canonical(config, [sep] + x) == Canonical(config, x) == Canonical(config, x + [sep])
  {
    assert [] + [sep] + x == [sep] + x && x + [sep] + [] == x + [sep];
    CanonicalAtSeparator(config, [], sep, x);
    CanonicalAtSeparator(config, x, sep, []);
    var nothing: Path := [[]];
    assert Split(config, []) == nothing && nothing[1..] == [];
    assert Canonical(config, []) == [];
  }

  /** `x/c/../y` is `x/y`, for any proper component `c`. */
  lemma ParentUndoesComponent(config: Config, x: seq<byte>, sep1: byte, c: Name, sep2: byte, sep3: byte, y: seq<byte>,
                              sep: byte)
    requires IsSeparator(config, sep1) && IsSeparator(config, sep2) && IsSeparator(config, sep3)
             && IsSeparator(config, sep)
    requires IsPiece(config, c) && c != [] && c != [0x2E] && c != [0x2E, 0x2E]
    ensures Canonical(config, x + [sep1] + (c + [sep2] + ([0x2E, 0x2E] + [sep3] + y)))
            == Canonical(config, x + [sep] + y)
  {
    var stack, pieces := Canonical(config, x), Split(config, y);
    CanonicalAtSeparator(config, x, sep1, c + [sep2] + (DOT_DOT + [sep3] + y));
    CanonicalAtSeparator(config, x, sep, y);
    SplitAtSeparator(config, c, sep2, DOT_DOT + [sep3] + y);
    SplitAtSeparator(config, DOT_DOT, sep3, y);
    SplitPiece(config, c, []);
    SplitPiece(config, DOT_DOT, []);
    var all := [c] + ([DOT_DOT] + pieces);
    assert all[0] == c && all[1..][0] == DOT_DOT && all[1..][1..] == pieces;
    assert (stack + [c])[..|stack + [c]| - 1] == stack;
    assert Resolve(stack, all) == Resolve(stack + [c], all[1..]) == Resolve(stack, pieces);
  }
}

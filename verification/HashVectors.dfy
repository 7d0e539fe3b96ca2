/** Path hashes octet by octet, with the numbers written out. */
module HashVectors {
  import opened Bytes
  import opened Paths
  import opened Octets
  import opened MadHash

  /** What an octet counts for: `\` as `/`, an upper-case letter as its lower-case one. */
  function Worth(c: byte): byte {
    if c == 0x5C then 0x2F else if 0x41 <= c <= 0x5A then c + 32 else c
  }

  /** At 32 bits every octet multiplies by 37, at 64 bits by 133. */
  lemma OneMoreOctet(init: nat, s: seq<byte>, c: byte)
    ensures WORD32.Valid() && WORD64.Valid()
    ensures HashOf(WORD32, init, s + [c]) == (HashOf(WORD32, init, s) * 37 + Worth(c)) % 0x1_0000_0000
    ensures HashOf(WORD64, init, s + [c]) == (HashOf(WORD64, init, s) * 133 + Worth(c)) % 0x1_0000_0000_0000_0000
  {
    assert (s + [c])[..|s|] == s;
    Wrapped(WORD32, HashOf(WORD32, init, s), Normalize(c));
    Wrapped(WORD64, HashOf(WORD64, init, s), Normalize(c));
  }

  lemma Wrapped(w: Word, h: nat, c: nat)
    requires w.Valid()
    ensures w.WrappingAdd(w.WrappingMul(h, w.prime), c) == (h * w.prime + c) % w.limit
  {
    AddMod(h * w.prime, c, w.limit);
  }

  /** A path has no hash exactly when fewer than two octets stand behind its first `:`. Otherwise it is that
      of these octets, behind one `/`. */
  lemma HashedOctets(w: Word, root: seq<byte>, s: seq<byte>)
    requires w.Valid() && 0x3A !in root
    ensures PathHash(w, root + [0x3A] + s)
            == if |s| < 2 then None
               else if s[0] == 0x2F || s[0] == 0x5C then Some(HashOf(w, 0, [0x2F] + s[1..]))
               else Some(HashOf(w, 0, [0x2F] + s))
    ensures 0x3A !in s ==> PathHash(w, s) == PathHash(w, root + [0x3A] + s)
  {
    ColonSplits(root, s);
    if 0x3A !in s { assert WithoutRoot(s) == s; }
  }

  // ---- `/action/eventnameid.txt` ----

  /** One octet more, with both numbers before and after. */
  lemma NextOctet(i: nat, j: nat, s: seq<byte>, c: byte, h: nat, h2: nat, k: nat, k2: nat) returns (t: seq<byte>)
    requires WORD32.Valid() && HashOf(WORD32, i, s) == h && h2 == (h * 37 + Worth(c)) % 0x1_0000_0000
    requires WORD64.Valid() && HashOf(WORD64, j, s) == k && k2 == (k * 133 + Worth(c)) % 0x1_0000_0000_0000_0000
    ensures t == s + [c] && HashOf(WORD32, i, t) == h2 && HashOf(WORD64, j, t) == k2
  {
    OneMoreOctet(i, s, c);
    OneMoreOctet(j, s, c);
    t := s + [c];
  }

  lemma HashOfNothing(i: nat, j: nat)
    ensures WORD32.Valid() && WORD64.Valid() && HashOf(WORD32, i, []) == i && HashOf(WORD64, j, []) == j
  {
  }

  const ACTION: seq<byte> := [0x2F, 0x61, 0x63, 0x74, 0x69, 0x6F, 0x6E]
  const EVENT: seq<byte> := [0x2F, 0x65, 0x76, 0x65, 0x6E, 0x74]
  const NAME: seq<byte> := [0x6E, 0x61, 0x6D, 0x65]
  const ID_TXT: seq<byte> := [0x69, 0x64, 0x2E, 0x74, 0x78, 0x74]

  lemma HashOfAction()
    ensures WORD32.Valid() && HashOf(WORD32, 0x0, ACTION) == 0xb0037eed
    ensures WORD64.Valid() && HashOf(WORD64, 0x0, ACTION) == 0xf04bcb50b7ed
  {
    hide HashOf;
    var i, j := 0x0, 0x0;
    HashOfNothing(i, j);
    var s1 := NextOctet(i, j, [], 0x2F, i, 0x2f, j, 0x2f);
    var s2 := NextOctet(i, j, s1, 0x61, 0x2f, 0x72c, 0x2f, 0x18cc);
    var s3 := NextOctet(i, j, s2, 0x63, 0x72c, 0x109bf, 0x18cc, 0xce25f);
    var s4 := NextOctet(i, j, s3, 0x74, 0x109bf, 0x26690f, 0xce25f, 0x6b19bcf);
    var s5 := NextOctet(i, j, s4, 0x69, 0x26690f, 0x58d2f94, 0x6b19bcf, 0x37a45f2f4);
    var s6 := NextOctet(i, j, s5, 0x6F, 0x58d2f94, 0xcd67e0d3, 0x37a45f2f4, 0x1ce86573933);
    var s7 := NextOctet(i, j, s6, 0x6E, 0xcd67e0d3, 0xb0037eed, 0x1ce86573933, 0xf04bcb50b7ed);
    assert s7 == ACTION;
  }

  lemma HashOfEvent()
    ensures WORD32.Valid() && HashOf(WORD32, 0xb0037eed, EVENT) == 0x491fac9a
    ensures WORD64.Valid() && HashOf(WORD64, 0xf04bcb50b7ed, EVENT) == 0x648cd843975e163a
  {
    hide HashOf;
    var i, j := 0xb0037eed, 0xf04bcb50b7ed;
    HashOfNothing(i, j);
    var s1 := NextOctet(i, j, [], 0x2F, i, 0x70815870, j, 0x7cd760a0ef8e50);
    var s2 := NextOctet(i, j, s1, 0x65, 0x70815870, 0x42b1c895, 0x7cd760a0ef8e50, 0x40dbe5339c74eff5);
    var s3 := NextOctet(i, j, s2, 0x76, 0x42b1c895, 0xa3b1fdff, 0x40dbe5339c74eff5, 0xb23e13d048c0aabf);
    var s4 := NextOctet(i, j, s3, 0x65, 0xa3b1fdff, 0xa8b9b640, 0xb23e13d048c0aabf, 0x9a404b35cc18b5a0);
    var s5 := NextOctet(i, j, s4, 0x6E, 0xa8b9b640, 0x62d757ae, 0x9a404b35cc18b5a0, 0x236712f308d65c8e);
    var s6 := NextOctet(i, j, s5, 0x74, 0x62d757ae, 0x491fac9a, 0x236712f308d65c8e, 0x648cd843975e163a);
    assert s6 == EVENT;
  }

  lemma HashOfName()
    ensures WORD32.Valid() && HashOf(WORD32, 0x491fac9a, NAME) == 0x867c08cf
    ensures WORD64.Valid() && HashOf(WORD64, 0x648cd843975e163a, NAME) == 0x9764f7b9f06f21cf
  {
    hide HashOf;
    var i, j := 0x491fac9a, 0x648cd843975e163a;
    HashOfNothing(i, j);
    var s1 := NextOctet(i, j, [], 0x6E, i, 0x9193f2b0, j, 0x3d2c5b1da3e18c90);
    var s2 := NextOctet(i, j, s1, 0x61, 0x9193f2b0, 0xa6213d1, 0x3d2c5b1da3e18c90, 0xc80b5666242e0731);
    var s3 := NextOctet(i, j, s2, 0x6D, 0xa6213d1, 0x802cdda2, 0xc80b5666242e0731, 0xede3e310cbe9bce2);
    var s4 := NextOctet(i, j, s3, 0x65, 0x802cdda2, 0x867c08cf, 0xede3e310cbe9bce2, 0x9764f7b9f06f21cf);
    assert s4 == NAME;
  }

  lemma HashOfIdTxt()
    ensures WORD32.Valid() && HashOf(WORD32, 0x867c08cf, ID_TXT) == 0xec09d5de
    ensures WORD64.Valid() && HashOf(WORD64, 0x9764f7b9f06f21cf, ID_TXT) == 0x800c9074f004323e
  {
    hide HashOf;
    var i, j := 0x867c08cf, 0x9764f7b9f06f21cf;
    HashOfNothing(i, j);
    var s1 := NextOctet(i, j, [], 0x69, i, 0x6fed4654, j, 0xa774b399e9bc90f4);
    var s2 := NextOctet(i, j, s1, 0x64, 0x6fed4654, 0x2d4b2a88, 0xa774b399e9bc90f4, 0xffa14ef66ef74f28);
    var s3 := NextOctet(i, j, s2, 0x2E, 0x2d4b2a88, 0x8bdd25d6, 0xffa14ef66ef74f28, 0xcece0607a67c1ff6);
    var s4 := NextOctet(i, j, s3, 0x74, 0x8bdd25d6, 0x36f67862, 0xcece0607a67c1ff6, 0x710921f97e7c9b42);
    var s5 := NextOctet(i, j, s4, 0x78, 0x36f67862, 0xf19f66a2, 0x710921f97e7c9b42, 0xb9bea69eb6bca9c2);
    var s6 := NextOctet(i, j, s5, 0x74, 0xf19f66a2, 0xec09d5de, 0xb9bea69eb6bca9c2, 0x800c9074f004323e);
    assert s6 == ID_TXT;
  }

  /** The numbers that the source gives for this path. */
  lemma SourceVector()
    ensures WORD32.Valid() && PathHash(WORD32, ACTION + EVENT + NAME + ID_TXT) == Some(0xec09d5de)
    ensures WORD64.Valid() && PathHash(WORD64, ACTION + EVENT + NAME + ID_TXT) == Some(0x800c9074f004323e)
  {
    HashOfAction();
    HashOfEvent();
    HashOfName();
    HashOfIdTxt();
    NoColon();
    hide ACTION, EVENT, NAME, ID_TXT, HashOf, PathHash;
    InFourParts(WORD32, ACTION, EVENT, NAME, ID_TXT);
    InFourParts(WORD64, ACTION, EVENT, NAME, ID_TXT);
    BehindSlash(WORD32, ACTION + EVENT + NAME + ID_TXT);
    BehindSlash(WORD64, ACTION + EVENT + NAME + ID_TXT);
  }

  lemma NoColon()
    ensures 0x3A !in ACTION && 0x3A !in EVENT && 0x3A !in NAME && 0x3A !in ID_TXT
    ensures |ACTION| > 1 && ACTION[0] == 0x2F
  {
  }

  lemma BehindSlash(w: Word, path: seq<byte>)
    requires w.Valid() && |path| > 1 && path[0] == 0x2F && 0x3A !in path
    ensures PathHash(w, path) == Some(HashOf(w, 0, path))
  {
    assert [0x2F] + path[1..] == path;
    assert WithoutRoot(path) == path;
  }

  lemma InFourParts(w: Word, a: seq<byte>, b: seq<byte>, c: seq<byte>, d: seq<byte>)
    requires w.Valid()
    ensures HashOf(w, 0, a + b + c + d) == HashOf(w, HashOf(w, HashOf(w, HashOf(w, 0, a), b), c), d)
  {
    HashConcat(w, 0, a + b + c, d);
    HashConcat(w, 0, a + b, c);
    HashConcat(w, 0, a, b);
  }
}

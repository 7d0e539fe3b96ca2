/** The path hash: a polynomial over octets in a wrapping machine word, evaluated several octets at a
    time. */
module MadHash {
  import opened Bytes
  import opened Octets
  import opened Paths

  /** A machine word of values below `limit`, with the prime used at that width. */
  datatype Word = Word(limit: nat, prime: nat) {
    ghost predicate Valid() { limit > 256 && prime > 0 }

    function WrappingMul(a: nat, b: nat): (c: nat)
      requires Valid()
      ensures c < limit
    {
      a * b % limit
    }

    function WrappingAdd(a: nat, b: nat): (c: nat)
      requires Valid()
      ensures c < limit
    {
      (a + b) % limit
    }
  }

  const WORD32 := Word(U32_LIMIT, 37)
  const WORD64 := Word(U64_LIMIT, 133)

  const COLON: byte := 0x3A

  function Normalize(c: byte): byte {
    if c == BACKSLASH then SLASH else LowerByte(c)
  }

  /** Setting bit 5 of an upper-case letter adds 32. */
  lemma LowerCaseBit(c: bv8)
    requires 0x41 <= c <= 0x5A
    ensures c | 32 == c + 32
  {
  }

  /** The polynomial in the octets of `s`, as a number without any wrap-around. */
  function Poly(p: nat, init: nat, s: seq<byte>): nat {
    if s == [] then init else Poly(p, init, s[..|s| - 1]) * p + Normalize(s[|s| - 1])
  }

  /** The byte-at-a-time hash. */
  function HashOf(w: Word, init: nat, s: seq<byte>): (h: nat)
    requires w.Valid()
  {
    if s == [] then init
    else w.WrappingAdd(w.WrappingMul(HashOf(w, init, s[..|s| - 1]), w.prime), Normalize(s[|s| - 1]))
  }

  // ---- arithmetic modulo the word ----

  lemma AddMod(a: nat, b: nat, m: nat)
    requires m > 0
    ensures (a % m + b) % m == (a + b) % m
  {
    SameRemainder(a + b, a % m + b, a / m, m);
  }

  /** Wrapping multiplication and then addition, on remainders. */
  lemma MulAddMod(a: nat, b: nat, c: nat, m: nat)
    requires m > 0 && a * b >= 0 && a % m * (b % m) >= 0
    ensures ((a % m * (b % m)) % m + c % m) % m == (a * b + c) % m
  {
    MulMod(a, b % m, m);
    MulMod(b, a, m);
    assert a * (b % m) == b % m * a && b * a == a * b;
    AddMod(a * b, c, m);
    AddMod(c, (a * b) % m, m);
    assert a % m * (b % m) % m == (a * b) % m;
  }

  /** The byte-at-a-time hash is the polynomial, wrapped. */
  lemma {:induction false} HashIsPoly(w: Word, init: nat, s: seq<byte>)
    requires w.Valid() && init < w.limit
    ensures HashOf(w, init, s) == Poly(w.prime, init, s) % w.limit
  {
    if s == [] {
      SmallMod(init, w.limit);
    } else {
      var front, c := s[..|s| - 1], Normalize(s[|s| - 1]);
      HashIsPoly(w, init, front);
      var v, m := Poly(w.prime, init, front), w.limit;
      MulMod(v, w.prime, m);
      AddMod(v * w.prime, c, m);
    }
  }

  lemma {:induction false} PolyConcat(p: nat, init: nat, a: seq<byte>, b: seq<byte>)
    ensures Poly(p, init, a + b) == Poly(p, Poly(p, init, a), b)
    decreases |b|
  {
    if b == [] {
      assert a + b == a;
    } else {
      assert (a + b)[..|a + b| - 1] == a + b[..|b| - 1];
      PolyConcat(p, init, a, b[..|b| - 1]);
    }
  }

  /** The initial value counts once for every octet. */
  lemma {:induction false} PolyInit(p: nat, init: nat, s: seq<byte>)
    requires p > 0
    ensures Poly(p, init, s) == init * Power(p, |s|) + Poly(p, 0, s)
  {
    if s == [] {
    } else {
      var front := s[..|s| - 1];
      PolyInit(p, init, front);
      var q, v := Power(p, |s| - 1), Poly(p, 0, front);
      assert (init * q + v) * p == init * (p * q) + v * p by {
        MulDistribute(init * q, v, p);
        MulAssoc(init, q, p);
      }
    }
  }

  // ---- the unrolled hash ----

  /** The powers of the prime from the highest down to 1, each wrapped. */
  ghost predicate DescendingPowers(w: Word, powers: seq<nat>) {
    w.Valid() && forall i :: 0 <= i < |powers| ==> powers[i] == Power(w.prime, |powers| - 1 - i) % w.limit
  }

  /** `impl_powers`: filled from its end. */
  method ImplPowers(w: Word, n: nat) returns (powers: array<nat>)
    requires w.Valid() && n > 0
    ensures fresh(powers) && powers.Length == n
    ensures DescendingPowers(w, powers[..])
  {
    hide Power;
    powers := new nat[n](_ => 1);
    PowerZero(w.prime, w.limit);
    var i := n - 1;
    while i > 0
      invariant 0 <= i < n
      invariant forall j :: i <= j < n ==> powers[j] == Power(w.prime, n - 1 - j) % w.limit
    {
      NextPowerWrapped(w, n - 1 - i);
      powers[i - 1] := w.WrappingMul(w.prime, powers[i]);
      i := i - 1;
    }
  }

  lemma PowerZero(p: nat, m: nat)
    requires p > 0 && m > 1
    ensures Power(p, 0) % m == 1
  {
    SmallMod(1, m);
  }

  lemma NextPowerWrapped(w: Word, n: nat)
    requires w.Valid()
    ensures w.WrappingMul(w.prime, Power(w.prime, n) % w.limit) == Power(w.prime, n + 1) % w.limit
  {
    MulMod(Power(w.prime, n), w.prime, w.limit);
  }

  /** What the dot product over the first `j` octets of a chunk contributes to the whole chunk's. */
  ghost function DotOf(w: Word, chunk: seq<byte>, j: nat): nat
    requires w.Valid() && j <= |chunk|
  {
    MulNonNegative(Poly(w.prime, 0, chunk[..j]), Power(w.prime, |chunk| - j));
    Poly(w.prime, 0, chunk[..j]) * Power(w.prime, |chunk| - j) % w.limit
  }

  lemma DotStep(w: Word, chunk: seq<byte>, j: nat)
    requires w.Valid() && j < |chunk|
    ensures w.WrappingAdd(DotOf(w, chunk, j),
                          w.WrappingMul(Normalize(chunk[j]), Power(w.prime, |chunk| - 1 - j) % w.limit))
            == DotOf(w, chunk, j + 1)
  {
    var p, m, c := w.prime, w.limit, Normalize(chunk[j]);
    var v, q := Poly(p, 0, chunk[..j]), Power(p, |chunk| - 1 - j);
    assert chunk[..j + 1][..j] == chunk[..j];
    assert Power(p, |chunk| - j) == p * q;
    hide Poly, Power, Normalize;
    DotArithmetic(p, m, c, v, q);
  }

  lemma DotArithmetic(p: nat, m: nat, c: nat, v: nat, q: nat)
    requires m > 0
    ensures v * (p * q) >= 0 && c * (q % m) >= 0 && (v * p + c) * q >= 0
    ensures (v * (p * q) % m + c * (q % m) % m) % m == (v * p + c) * q % m
  {
    MulNonNegative(p, q);
    MulNonNegative(v, p * q);
    MulNonNegative(c, q);
    MulNonNegative(c, q % m);
    MulMod(q, c, m);
    assert (v * p + c) * q == v * (p * q) + c * q by {
      MulDistribute(v * p, c, q);
      MulAssoc(v, p, q);
    }
    AddMod(v * (p * q), c * q % m, m);
    AddMod(c * q, v * (p * q), m);
  }

  /** The fold over one chunk. */
  method DotProduct(w: Word, powers: array<nat>, chunk: seq<byte>) returns (dot: nat)
    requires w.Valid() && powers.Length == |chunk|
    requires DescendingPowers(w, powers[..])
    ensures dot == DotOf(w, chunk, |chunk|)
  {
    hide Power, DotOf, Normalize, Word.WrappingAdd, Word.WrappingMul;
    dot := 0;
    DotOfNothing(w, chunk);
    for j := 0 to |chunk|
      invariant dot == DotOf(w, chunk, j)
    {
      DotStep(w, chunk, j);
      var val := w.WrappingMul(Normalize(chunk[j]), powers[j]);
      dot := w.WrappingAdd(dot, val);
    }
  }

  /** `mad_hash`: `n` octets at a time by a dot product with the powers of the prime, the rest one by
      one. It is the byte-at-a-time hash, however many octets are taken at a time; their number is cast to
      32 bits where the prime is raised to it. */
  method MadHash(w: Word, n: nat, init: nat, bytes: seq<byte>) returns (hash: nat)
    requires w.Valid() && 0 < n < U32_LIMIT && init < w.limit
    ensures hash == HashOf(w, init, bytes)
  {
    SmallMod(n, U32_LIMIT);
    hide Power, HashOf, DotOf, HashedTo, DescendingPowers, Normalize, Word.WrappingAdd, Word.WrappingMul;
    var powers := ImplPowers(w, n);
    var powerN := Power(w.prime, n % U32_LIMIT) % w.limit;
    hash := init;
    var at := 0;
    NothingHashed(w, init, bytes);
    while at + n <= |bytes|
      invariant DescendingPowers(w, powers[..])
      invariant 0 <= at <= |bytes| && HashedTo(w, init, bytes, at, hash)
    {
      var dot := DotProduct(w, powers, bytes[at..at + n]);
      ChunkHashed(w, init, bytes, at, n, hash, dot);
      hash := w.WrappingAdd(w.WrappingMul(hash, powerN), dot);
      at := at + n;
    }
    while at < |bytes|
      invariant 0 <= at <= |bytes| && HashedTo(w, init, bytes, at, hash)
    {
      OctetHashed(w, init, bytes, at, hash);
      hash := w.WrappingAdd(w.WrappingMul(hash, w.prime), Normalize(bytes[at]));
      at := at + 1;
    }
    AllHashed(w, init, bytes, hash);
  }

  /** `hash` is the hash of the first `at` octets. */
  ghost predicate HashedTo(w: Word, init: nat, bytes: seq<byte>, at: nat, hash: nat) {
    w.Valid() && at <= |bytes| && hash == Poly(w.prime, init, bytes[..at]) % w.limit
  }

  lemma AllHashed(w: Word, init: nat, bytes: seq<byte>, hash: nat)
    requires HashedTo(w, init, bytes, |bytes|, hash) && init < w.limit
    ensures hash == HashOf(w, init, bytes)
  {
    assert bytes[..|bytes|] == bytes;
    HashIsPoly(w, init, bytes);
  }

  lemma NothingHashed(w: Word, init: nat, bytes: seq<byte>)
    requires w.Valid() && init < w.limit
    ensures HashedTo(w, init, bytes, 0, init)
  {
    SmallMod(init, w.limit);
  }

  lemma DotOfNothing(w: Word, chunk: seq<byte>)
    requires w.Valid()
    ensures DotOf(w, chunk, 0) == 0
  {
    assert chunk[..0] == [];
    assert 0 * Power(w.prime, |chunk|) == 0;
    SmallMod(0, w.limit);
  }

  lemma ChunkHashed(w: Word, init: nat, bytes: seq<byte>, at: nat, n: nat, hash: nat, dot: nat)
    requires w.Valid() && at + n <= |bytes|
    requires HashedTo(w, init, bytes, at, hash) && dot == DotOf(w, bytes[at..at + n], n)
    ensures HashedTo(w, init, bytes, at + n, w.WrappingAdd(w.WrappingMul(hash, Power(w.prime, n) % w.limit), dot))
  {
    var chunk, p, m := bytes[at..at + n], w.prime, w.limit;
    assert bytes[..at + n] == bytes[..at] + chunk && chunk[..n] == chunk;
    PolyConcat(p, init, bytes[..at], chunk);
    var v := Poly(p, init, bytes[..at]);
    PolyInit(p, v, chunk);
    assert Power(p, 0) == 1;
    hide Poly, Power;
    MulNonNegative(v, Power(p, n));
    MulNonNegative(v % m, Power(p, n) % m);
    MulAddMod(v, Power(p, n), Poly(p, 0, chunk), m);
  }

  lemma OctetHashed(w: Word, init: nat, bytes: seq<byte>, at: nat, hash: nat)
    requires w.Valid() && at < |bytes| && HashedTo(w, init, bytes, at, hash)
    ensures HashedTo(w, init, bytes, at + 1, w.WrappingAdd(w.WrappingMul(hash, w.prime), Normalize(bytes[at])))
  {
    assert bytes[..at + 1][..at] == bytes[..at];
    var v := Poly(w.prime, init, bytes[..at]);
    MulMod(v, w.prime, w.limit);
    AddMod(v * w.prime, Normalize(bytes[at]), w.limit);
  }

  /** `mad_hash32` and `mad_hash64`. */
  method MadHashEach(w: Word, init: nat, bytes: seq<byte>) returns (hash: nat)
    requires w.Valid() && init < w.limit
    ensures hash == HashOf(w, init, bytes)
  {
    var i := 0;
    hash := init;
    while i < |bytes|
      invariant 0 <= i <= |bytes| && hash == HashOf(w, init, bytes[..i])
    {
      assert bytes[..i + 1][..i] == bytes[..i];
      hash := w.WrappingAdd(w.WrappingMul(hash, w.prime), Normalize(bytes[i]));
      i := i + 1;
    }
    assert bytes[..i] == bytes;
  }

  // ---- hashing paths ----

  /** What follows the first colon, or everything. */
  function WithoutRoot(s: seq<byte>): seq<byte> {
    if COLON in s then AfterColon(s) else s
  }

  function AfterColon(s: seq<byte>): seq<byte> {
    if s == [] || s[0] == COLON then s[Min(1, |s|)..] else AfterColon(s[1..])
  }

  function SuffixOf(s: seq<byte>): Option<seq<byte>> {
    var bytes := WithoutRoot(s);
    if |bytes| < 2 then None
    else if bytes[0] == SLASH || bytes[0] == BACKSLASH then Some(bytes[1..])
    else Some(bytes)
  }

  /** The two widths in use. */
  lemma WordsAreValid()
    ensures WORD32.Valid() && WORD64.Valid()
  {
  }

  method HashPath32(s: seq<byte>) returns (hash: Option<nat>)
    ensures WORD32.Valid() && hash == PathHash(WORD32, s)
    ensures hash.Some? ==> hash.value < U32_LIMIT
  {
    WordsAreValid();
    hash := HashPath(WORD32, s);
    HashFits(WORD32, s);
  }

  method HashPath64(s: seq<byte>) returns (hash: Option<nat>)
    ensures WORD64.Valid() && hash == PathHash(WORD64, s)
    ensures hash.Some? ==> hash.value < U64_LIMIT
  {
    WordsAreValid();
    hash := HashPath(WORD64, s);
    HashFits(WORD64, s);
  }

  lemma HashFits(w: Word, s: seq<byte>)
    requires w.Valid()
    ensures PathHash(w, s).Some? ==> PathHash(w, s).value < w.limit
  {
  }

  /** `hash_path32` and `hash_path64`: the hash goes on from that of a slash, four octets at a time. */
  method HashPath(w: Word, s: seq<byte>) returns (hash: Option<nat>)
    requires w.Valid()
    ensures hash == PathHash(w, s)
  {
    var suffix := SuffixOf(s);
    if suffix.None? {
      return None;
    }
    var init := MadHashEach(w, 0, [SLASH]);
    assert init < w.limit;
    var h := MadHash(w, 4, init, suffix.value);
    HashConcat(w, 0, [SLASH], suffix.value);
    hash := Some(h);
  }

  /** The hash of the suffix with a slash in front. */
  function PathHash(w: Word, s: seq<byte>): Option<nat>
    requires w.Valid()
  {
    match SuffixOf(s)
    case None => None
    case Some(suffix) => Some(HashOf(w, 0, [SLASH] + suffix))
  }

  lemma {:induction false} HashConcat(w: Word, init: nat, a: seq<byte>, b: seq<byte>)
    requires w.Valid()
    ensures HashOf(w, init, a + b) == HashOf(w, HashOf(w, init, a), b)
    decreases |b|
  {
    if b == [] {
      assert a + b == a;
    } else {
      assert (a + b)[..|a + b| - 1] == a + b[..|b| - 1];
      HashConcat(w, init, a, b[..|b| - 1]);
    }
  }

  /** Octet for octet the same up to the case of ASCII letters and the kind of slash. */
  predicate SameSpelling(a: seq<byte>, b: seq<byte>) {
    |a| == |b| && forall i :: 0 <= i < |a| ==>
      a[i] == b[i] || CasePair(a[i], b[i]) || CasePair(b[i], a[i]) || {a[i], b[i]} == {0x2F, 0x5C}
  }

  predicate SameNormalized(a: seq<byte>, b: seq<byte>) {
    |a| == |b| && forall i :: 0 <= i < |a| ==> Normalize(a[i]) == Normalize(b[i])
  }

  lemma NormalizedAlike(a: seq<byte>, b: seq<byte>)
    requires SameSpelling(a, b)
    ensures SameNormalized(a, b)
  {
    forall i | 0 <= i < |a| ensures Normalize(a[i]) == Normalize(b[i]) {
      if {a[i], b[i]} == {0x2F, 0x5C} { assert a[i] in {0x2F, 0x5C} && b[i] in {0x2F, 0x5C}; }
    }
  }

  lemma {:induction false} SpellingHidden(w: Word, init: nat, a: seq<byte>, b: seq<byte>)
    requires w.Valid() && SameNormalized(a, b)
    ensures HashOf(w, init, a) == HashOf(w, init, b)
  {
    if a == [] {
    } else {
      SpellingHidden(w, init, a[..|a| - 1], b[..|b| - 1]);
    }
  }

  lemma {:induction false} SameRoot(a: seq<byte>, b: seq<byte>)
    requires SameNormalized(a, b)
    ensures COLON in a <==> COLON in b
    ensures COLON in a ==> SameNormalized(AfterColon(a), AfterColon(b))
  {
    if a == [] {
    } else {
      assert a[0] == COLON <==> b[0] == COLON;
      if a[0] != COLON {
        assert SameNormalized(a[1..], b[1..]) by {
          forall i | 0 <= i < |a| - 1 ensures Normalize(a[1..][i]) == Normalize(b[1..][i]) {
            assert Normalize(a[i + 1]) == Normalize(b[i + 1]);
          }
        }
        SameRoot(a[1..], b[1..]);
        assert a == [a[0]] + a[1..] && b == [b[0]] + b[1..];
      }
    }
  }

  /** The hash of a path does not depend on its case or on the kind of its slashes. */
  lemma PathHashIgnoresSpelling(w: Word, a: seq<byte>, b: seq<byte>)
    requires w.Valid() && SameSpelling(a, b)
    ensures PathHash(w, a) == PathHash(w, b)
  {
    NormalizedAlike(a, b);
    hide SameSpelling;
    SameRoot(a, b);
    var x, y := WithoutRoot(a), WithoutRoot(b);
    if |x| >= 2 {
      assert Normalize(x[0]) == Normalize(y[0]);
      var s, t := SuffixOf(a).value, SuffixOf(b).value;
      SpellingHidden(w, HashOf(w, 0, [SLASH]), s, t);
      HashConcat(w, 0, [SLASH], s);
      HashConcat(w, 0, [SLASH], t);
    }
  }

  lemma {:induction false} ColonSplits(root: seq<byte>, s: seq<byte>)
    requires COLON !in root
    ensures AfterColon(root + [COLON] + s) == s
  {
    var whole := root + [COLON] + s;
    if root == [] {
      assert whole[1..] == s;
    } else {
      assert whole[0] == root[0] && whole[1..] == root[1..] + [COLON] + s;
      ColonSplits(root[1..], s);
    }
  }

  /** Neither a root before a colon nor a slash in front of the path changes its hash. */
  lemma PathHashIgnoresRoot(w: Word, root: seq<byte>, s: seq<byte>)
    requires w.Valid() && 0x3A !in root && 0x3A !in s
    ensures PathHash(w, root + [0x3A] + s) == PathHash(w, s)
    ensures |s| >= 2 && s[0] != 0x2F && s[0] != 0x5C ==>
              PathHash(w, [0x2F] + s) == PathHash(w, s) == PathHash(w, [0x5C] + s)
  {
    ColonSplits(root, s);
    assert ([SLASH] + s)[1..] == s && ([BACKSLASH] + s)[1..] == s;
  }
}

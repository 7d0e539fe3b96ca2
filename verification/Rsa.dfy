/** RSA decoding of fixed-length blocks: each k-octet block becomes k - 1 octets, compacted in place. */
module Rsa {
  import opened Bytes
  import opened Octets

  /** `len` is the octet length of `n`, which the key reader refuses to be zero. */
  datatype RsaKey = RsaKey(n: nat, e: nat, len: nat) {
    ghost predicate Valid() { len > 0 }
  }

  datatype DecryptError = Size(len: nat) | Base

  datatype Outcome<+T> = Ok(value: T) | Err(error: DecryptError)

  /** c^e mod n. */
  function ModPow(c: nat, e: nat, n: nat): (m: nat)
    requires n > 0
    ensures m < n
  {
    if e == 0 then 1 % n else c * ModPow(c, e - 1, n) % n
  }

  /** c^e, with 0^0 = 1. */
  function Raised(c: nat, e: nat): nat {
    if e == 0 then 1 else MulNonNegative(c, Raised(c, e - 1)); c * Raised(c, e - 1)
  }

  /** Reducing at every step leaves the remainder of the whole power. */
  lemma {:induction false} ModPowIs(c: nat, e: nat, n: nat)
    requires n > 0
    ensures ModPow(c, e, n) == Raised(c, e) % n
  {
    if e == 0 {
    } else {
      ModPowIs(c, e - 1, n);
      MulMod(Raised(c, e - 1), c, n);
      assert c * Raised(c, e - 1) == Raised(c, e - 1) * c;
      assert c * ModPow(c, e - 1, n) == ModPow(c, e - 1, n) * c;
    }
  }

  lemma {:induction false} RaisedSum(c: nat, a: nat, b: nat)
    ensures Raised(c, a + b) == Raised(c, a) * Raised(c, b)
  {
    if a == 0 {
    } else {
      RaisedSum(c, a - 1, b);
      MulAssoc(c, Raised(c, a - 1), Raised(c, b));
    }
  }

  lemma {:induction false} RaisedRemainder(c: nat, e: nat, n: nat)
    requires n > 0
    ensures Raised(c % n, e) % n == Raised(c, e) % n
  {
    if e == 0 {
    } else {
      RaisedRemainder(c, e - 1, n);
      hide Raised;
      var x, y := Raised(c % n, e - 1), Raised(c, e - 1);
      MulMod(x, c % n, n);
      MulMod(y, c, n);
      MulMod(c, y % n, n);
      assert x * (c % n) == c % n * x && y * c == c * y && y % n * (c % n) == c % n * (y % n);
      assert y % n * c == c * (y % n);
      RaisedStep(c % n, e);
      RaisedStep(c, e);
    }
  }

  lemma RaisedStep(c: nat, e: nat)
    requires e > 0
    ensures Raised(c, e) == c * Raised(c, e - 1)
  {
  }

  lemma {:induction false} RaisedTwice(c: nat, a: nat, b: nat)
    ensures a * b >= 0 && Raised(c, a * b) == Raised(Raised(c, a), b)
  {
    MulNonNegative(a, b);
    if b == 0 {
      assert a * b == 0;
    } else {
      RaisedTwice(c, a, b - 1);
      assert a * b == a + a * (b - 1);
      RaisedSum(c, a, a * (b - 1));
    }
  }

  predicate Reduced(key: RsaKey, block: seq<byte>) {
    BeValue(block) < key.n
  }

  /** RSAVP1 (section 5.2.2 of RFC 8017) on an octet string. */
  function Recovered(key: RsaKey, block: seq<byte>): nat
    requires Reduced(key, block)
  {
    ModPow(BeValue(block), key.e, key.n)
  }

  /** The recovered value in one octet less than the block has. */
  function DecryptBlock(key: RsaKey, block: seq<byte>): (s: seq<byte>)
    requires key.Valid() && Reduced(key, block)
    ensures |s| == key.len - 1
  {
    ToBe(Recovered(key, block), key.len - 1)
  }

  /** `s` starts with a whole block that is below the modulus. */
  predicate StartsReadable(key: RsaKey, s: seq<byte>) {
    |s| >= key.len && Reduced(key, s[..key.len])
  }

  /** How many octets the leading readable blocks of `s` take. */
  function Readable(key: RsaKey, s: seq<byte>): (n: nat)
    requires key.Valid()
    ensures n <= |s|
  {
    if StartsReadable(key, s) then key.len + Readable(key, s[key.len..]) else 0
  }

  /** The leading readable blocks of `s`, decrypted one by one. */
  function Decoded(key: RsaKey, s: seq<byte>): seq<byte>
    requires key.Valid()
  {
    if StartsReadable(key, s)
    then DecryptBlock(key, s[..key.len]) + Decoded(key, s[key.len..])
    else []
  }

  /** The block at octet `pos` of `s` is decoded at octet `at` of the output. */
  predicate BlockAt(key: RsaKey, s: seq<byte>, i: nat, decoded: seq<byte>)
    requires key.Valid()
  {
    var k := key.len;
    && 0 <= i * k <= (i + 1) * k <= |s|
    && 0 <= i * (k - 1) <= (i + 1) * (k - 1) <= |decoded|
    && Reduced(key, s[i * k..(i + 1) * k])
    && decoded[i * (k - 1)..(i + 1) * (k - 1)] == DecryptBlock(key, s[i * k..(i + 1) * k])
  }

  lemma ShiftIndex(i: nat, k: nat)
    requires i > 0
    ensures i * k == (i - 1) * k + k
  {
  }

  /** The i-th output block is the i-th input block's own decryption. */
  lemma {:induction false} EveryBlockDecoded(key: RsaKey, s: seq<byte>, i: nat)
    requires key.Valid() && (i + 1) * key.len <= Readable(key, s)
    ensures BlockAt(key, s, i, Decoded(key, s))
  {
    hide Reduced, DecryptBlock;
    var k := key.len;
    MulAtLeast(i + 1, k);
    assert StartsReadable(key, s);
    if i > 0 {
      ShiftIndex(i + 1, k);
      EveryBlockDecoded(key, s[k..], i - 1);
      LaterBlock(key, s, i, DecryptBlock(key, s[..k]), Decoded(key, s[k..]));
    } else {
      assert 0 * k == 0 && 1 * k == k && 0 * (k - 1) == 0 && 1 * (k - 1) == k - 1;
    }
  }

  lemma LaterBlock(key: RsaKey, s: seq<byte>, i: nat, first: seq<byte>, decoded: seq<byte>)
    requires key.Valid() && i > 0 && |first| == key.len - 1 && key.len <= |s|
    requires BlockAt(key, s[key.len..], i - 1, decoded)
    ensures BlockAt(key, s, i, first + decoded)
  {
    hide Reduced, DecryptBlock;
    var k := key.len;
    ShiftIndex(i, k);
    ShiftIndex(i + 1, k);
    ShiftIndex(i, k - 1);
    ShiftIndex(i + 1, k - 1);
    SliceShift(s, k, (i - 1) * k, i * k);
    SliceShift(first + decoded, k - 1, (i - 1) * (k - 1), i * (k - 1));
    assert (first + decoded)[k - 1..] == decoded;
  }

  lemma MulAtLeast(i: nat, k: nat)
    requires i > 0
    ensures k <= i * k
  {
  }

  lemma SliceShift(s: seq<byte>, at: nat, lo: nat, hi: nat)
    requires at <= |s| && lo <= hi && hi + at <= |s|
    ensures s[at..][lo..hi] == s[lo + at..hi + at]
  {
  }

  /** Output and input stay in proportion: k - 1 octets out for k in. */
  lemma {:induction false} DecodedLength(key: RsaKey, s: seq<byte>)
    requires key.Valid()
    ensures Readable(key, s) % key.len == 0
    ensures |Decoded(key, s)| == Readable(key, s) / key.len * (key.len - 1)
    ensures |Decoded(key, s)| <= Readable(key, s)
  {
    var k := key.len;
    if StartsReadable(key, s) {
      DecodedLength(key, s[k..]);
      var r := Readable(key, s[k..]);
      OneMore(r, k);
      ShiftIndex(r / k + 1, k - 1);
    }
  }

  lemma OneMore(r: nat, k: nat)
    requires k > 0
    ensures (r + k) / k == r / k + 1 && (r + k) % k == r % k
  {
    assert r == k * (r / k) + r % k;
    assert r + k == k * (r / k + 1) + r % k;
    RemainderIs(r + k, k, r / k + 1, r % k);
  }

  /** Decoding stops only at the end, at a partial block, or at a block not below the modulus. */
  lemma {:induction false} StopsAtUnreadable(key: RsaKey, s: seq<byte>)
    requires key.Valid()
    ensures !StartsReadable(key, s[Readable(key, s)..])
  {
    if StartsReadable(key, s) {
      var rest := s[key.len..];
      StopsAtUnreadable(key, rest);
      assert s[Readable(key, s)..] == rest[Readable(key, rest)..];
    } else {
      assert s[0..] == s;
    }
  }

  /** Every block is decoded when and only when each is below the modulus. */
  lemma {:induction false} AllReadableIff(key: RsaKey, s: seq<byte>)
    requires key.Valid() && |s| % key.len == 0
    ensures Readable(key, s) == |s| <==>
            forall i: nat :: (i + 1) * key.len <= |s| ==> ReducedAt(key, s, i)
  {
    if Readable(key, s) == |s| {
      forall i: nat | (i + 1) * key.len <= |s| ensures ReducedAt(key, s, i) {
        EveryBlockDecoded(key, s, i);
      }
    } else {
      FirstUnreduced(key, s, Readable(key, s), Readable(key, s) / key.len);
    }
  }

  lemma FirstUnreduced(key: RsaKey, s: seq<byte>, r: nat, i: nat)
    requires key.Valid() && |s| % key.len == 0 && r == Readable(key, s) < |s| && i == r / key.len
    ensures (i + 1) * key.len <= |s| && !ReducedAt(key, s, i)
  {
    var k := key.len;
    StopsAtUnreadable(key, s);
    DecodedLength(key, s);
    hide Readable, Decoded, Reduced, DecryptBlock, StartsReadable;
    assert !(|s[r..]| >= k && Reduced(key, s[r..][..k])) by { UnreadableMeans(key, s[r..]); }
    NextMultiple(r, |s|, k);
    MultipleIs(r, k, i);
    ShiftIndex(i + 1, k);
    SliceShift(s, r, 0, k);
    assert s[r..][0..k] == s[r..][..k];
  }

  lemma UnreadableMeans(key: RsaKey, s: seq<byte>)
    requires !StartsReadable(key, s)
    ensures !(|s| >= key.len && Reduced(key, s[..key.len]))
  {
  }

  lemma MultipleIs(r: nat, k: nat, i: nat)
    requires k > 0 && r % k == 0 && i == r / k
    ensures r == i * k
  {
  }

  predicate ReducedAt(key: RsaKey, s: seq<byte>, i: nat) {
    0 <= i * key.len <= (i + 1) * key.len <= |s| && Reduced(key, s[i * key.len..(i + 1) * key.len])
  }

  lemma NextMultiple(r: nat, n: nat, k: nat)
    requires k > 0 && r < n && r % k == 0 && n % k == 0
    ensures r + k <= n
  {
    var a, b := r / k, n / k;
    assert r == k * a && n == k * b;
    if b <= a { MulMonotone(k, b, a); } else { MulMonotone(k, a + 1, b); assert k * (a + 1) == k * a + k; }
  }

  /** `decrypt_block_in`: one block from `block` into `out[lo..hi]`, as many low octets as there is room for.
      Nothing is written on an error. */
  method DecryptBlockIn(key: RsaKey, block: seq<byte>, out: array<byte>, lo: nat, hi: nat) returns (r: Outcome<()>)
    requires key.Valid() && lo <= hi <= out.Length
    modifies out
    ensures |block| != key.len ==> r == Err(Size(key.len))
    ensures |block| == key.len && !Reduced(key, block) ==> r == Err(Base)
    ensures |block| == key.len && Reduced(key, block) ==>
              r == Ok(()) && out[..] == Overwrite(old(out[..]), lo, ToBe(Recovered(key, block), hi - lo))
    ensures r.Err? ==> out[..] == old(out[..])
  {
    if |block| != key.len {
      return Err(Size(key.len));
    }
    var limbs := FromBytesBe(block);
    if LimbsValue(limbs) >= key.n {
      return Err(Base);
    }
    ToBytesBeIn(ModPow(LimbsValue(limbs), key.e, key.n), out, lo, hi);
    r := Ok(());
  }

  /** `decrypt_blocks_in_place`: outputs are packed at the front of the buffer the inputs are read from.
      Whatever the outcome, the leading readable blocks are replaced by their decryptions, each read
      before anything is written over it. */
  method DecryptBlocksInPlace(key: RsaKey, blocks: array<byte>) returns (r: Outcome<nat>)
    requires key.Valid()
    modifies blocks
    ensures |Decoded(key, old(blocks[..]))| <= blocks.Length
    ensures blocks.Length % key.len != 0 ==> r == Err(Size(key.len)) && blocks[..] == old(blocks[..])
    ensures blocks.Length % key.len == 0 ==>
              && blocks[..] == Overwrite(old(blocks[..]), 0, Decoded(key, old(blocks[..])))
              && (Readable(key, old(blocks[..])) < blocks.Length ==> r == Err(Base))
              && (Readable(key, old(blocks[..])) == blocks.Length ==>
                    r == Ok(blocks.Length / key.len * (key.len - 1)))
  {
    hide Decoded, Readable, StartsReadable, Overwrite;
    var k := key.len;
    ghost var was := blocks[..];
    DecodedLength(key, was);
    if blocks.Length % k != 0 {
      return Err(Size(k));
    }
    var inTail, outTail := k, k - 1;
    ghost var done: seq<byte> := [];
    BeforeFirst(key, was);
    while inTail <= blocks.Length
      invariant k <= inTail && k - 1 <= outTail <= inTail - 1
      invariant inTail - k <= blocks.Length && |done| == outTail - (k - 1)
      invariant Compacting(key, was, blocks[..], inTail - k, done)
    {
      ghost var pos := inTail - k;
      ghost var now := blocks[..];
      var block := blocks[inTail - k..inTail];
      UnreadBlock(key, was, now, pos, done);
      var limbs := FromBytesBe(block);
      if LimbsValue(limbs) >= key.n {
        StoppedAt(key, was, now, pos, done);
        return Err(Base);
      }
      ToBytesBeIn(ModPow(LimbsValue(limbs), key.e, key.n), blocks, outTail - (k - 1), outTail);
      BlockCompacted(key, was, now, pos, done);
      done := done + DecryptBlock(key, block);
      inTail := inTail + k;
      outTail := outTail + (k - 1);
    }
    AllCompacted(key, was, blocks[..], inTail - k, done);
    r := Ok(outTail - (k - 1));
  }

  /** After the blocks before `pos` were handled: their outputs `done` stand at the front, and nothing
      from the end of the outputs on has changed. */
  ghost predicate Compacting(key: RsaKey, was: seq<byte>, now: seq<byte>, pos: nat, done: seq<byte>)
    requires key.Valid()
  {
    && pos <= |was| && |done| <= pos && |now| == |was|
    && now == Overwrite(was, 0, done)
    && Decoded(key, was) == done + Decoded(key, was[pos..])
    && Readable(key, was) == pos + Readable(key, was[pos..])
    && (|was| - pos) % key.len == |was| % key.len
  }

  lemma BeforeFirst(key: RsaKey, was: seq<byte>)
    requires key.Valid()
    ensures Compacting(key, was, was, 0, [])
  {
    hide Decoded, Readable, StartsReadable;
    assert was[0..] == was;
  }

  /** The next block has not been written over. */
  lemma UnreadBlock(key: RsaKey, was: seq<byte>, now: seq<byte>, pos: nat, done: seq<byte>)
    requires key.Valid() && Compacting(key, was, now, pos, done) && pos + key.len <= |was|
    ensures now[pos..pos + key.len] == was[pos..][..key.len]
  {
    hide Decoded, Readable, StartsReadable;
    OverwriteBeyond(was, 0, done, pos, pos + key.len);
  }

  lemma StoppedAt(key: RsaKey, was: seq<byte>, now: seq<byte>, pos: nat, done: seq<byte>)
    requires key.Valid() && Compacting(key, was, now, pos, done) && pos + key.len <= |was|
    requires !Reduced(key, was[pos..][..key.len])
    ensures Readable(key, was) < |was| && now == Overwrite(was, 0, Decoded(key, was))
  {
    assert !StartsReadable(key, was[pos..]);
    assert done + [] == done;
  }

  lemma BlockCompacted(key: RsaKey, was: seq<byte>, now: seq<byte>, pos: nat, done: seq<byte>)
    requires key.Valid() && Compacting(key, was, now, pos, done) && pos + key.len <= |was|
    requires Reduced(key, was[pos..][..key.len])
    ensures var m := DecryptBlock(key, was[pos..][..key.len]);
            Compacting(key, was, Overwrite(now, |done|, m), pos + key.len, done + m)
  {
    hide Overwrite;
    var m, rest := DecryptBlock(key, was[pos..][..key.len]), was[pos..];
    OverwriteTwice(was, 0, done, m);
    assert was[pos + key.len..] == rest[key.len..];
    assert StartsReadable(key, rest);
    assert done + (m + Decoded(key, rest[key.len..])) == (done + m) + Decoded(key, rest[key.len..]);
    OneMore(|was| - pos - key.len, key.len);
  }

  lemma AllCompacted(key: RsaKey, was: seq<byte>, now: seq<byte>, pos: nat, done: seq<byte>)
    requires key.Valid() && Compacting(key, was, now, pos, done) && pos + key.len > |was|
    requires |was| % key.len == 0
    ensures Readable(key, was) == |was| && now == Overwrite(was, 0, Decoded(key, was))
    ensures Decoded(key, was) == done
  {
    SmallRemainder(|was| - pos, key.len);
    assert was[pos..] == [];
    assert done + [] == done;
  }

  lemma SmallRemainder(n: nat, k: nat)
    requires n < k && n % k == 0
    ensures n == 0
  {
  }

  // ---- the sender's side ----

  /** `d` undoes `e`: every residue raised to one and then the other comes back. */
  ghost predicate Inverse(key: RsaKey, d: nat) {
    key.n > 0 && forall m: nat :: m < key.n ==> ModPow(ModPow(m, d, key.n), key.e, key.n) == m
  }

  /** Every residue raised to `k` comes back. */
  ghost predicate ComesBack(n: nat, k: nat)
    requires n > 0
  {
    forall m: nat :: m < n ==> Raised(m, k) % n == m
  }

  /** That is: every residue raised to their product comes back. */
  lemma InverseIff(key: RsaKey, d: nat)
    requires key.n > 0
    ensures d * key.e >= 0 && (Inverse(key, d) <==> ComesBack(key.n, d * key.e))
  {
    hide ModPow, Raised;
    MulNonNegative(d, key.e);
    if Inverse(key, d) {
      forall m: nat | m < key.n ensures Raised(m, d * key.e) % key.n == m {
        RaisedBoth(key, d, m);
        assert ModPow(ModPow(m, d, key.n), key.e, key.n) == m;
      }
    }
    if ComesBack(key.n, d * key.e) {
      forall m: nat | m < key.n ensures ModPow(ModPow(m, d, key.n), key.e, key.n) == m {
        RaisedBoth(key, d, m);
        assert Raised(m, d * key.e) % key.n == m;
      }
    }
  }

  lemma RaisedBoth(key: RsaKey, d: nat, m: nat)
    requires key.n > 0
    ensures d * key.e >= 0 && ModPow(ModPow(m, d, key.n), key.e, key.n) == Raised(m, d * key.e) % key.n
  {
    hide ModPow, Raised;
    MulNonNegative(d, key.e);
    ModPowIs(m, d, key.n);
    ModPowIs(ModPow(m, d, key.n), key.e, key.n);
    RaisedRemainder(Raised(m, d), key.e, key.n);
    RaisedTwice(m, d, key.e);
  }

  /** The modulus needs all of its `len` octets. */
  ghost predicate Minimal(key: RsaKey) {
    key.len > 0 && Power(256, key.len - 1) <= key.n <= Power(256, key.len)
  }

  /** The archive's author signs each k - 1 octets of `text` into a k-octet block. */
  function Encoded(key: RsaKey, d: nat, text: seq<byte>): (s: seq<byte>)
    requires key.len > 1 && key.n > 0
  {
    if |text| < key.len - 1 then []
    else
      ToBe(ModPow(BeValue(text[..key.len - 1]), d, key.n), key.len)
      + Encoded(key, d, text[key.len - 1..])
  }

  lemma BlockUndone(key: RsaKey, d: nat, text: seq<byte>)
    requires Minimal(key) && Inverse(key, d) && |text| == key.len - 1
    ensures var block := ToBe(ModPow(BeValue(text), d, key.n), key.len);
            Reduced(key, block) && DecryptBlock(key, block) == text
  {
    hide ModPow, BeValue, ToBe, Power;
    var m := BeValue(text);
    BeValueBound(text);
    var c := ModPow(m, d, key.n);
    BeValueOfToBe(c, key.len);
    assert c % Power(256, key.len) == c by { SmallMod(c, Power(256, key.len)); }
    ToBeOfBeValue(text);
  }

  /** Decoding gives back the text that was signed with the matching exponent, whole blocks of it. */
  lemma {:induction false} DecodingUndoesSigning(key: RsaKey, d: nat, text: seq<byte>)
    requires key.len > 1 && Minimal(key) && Inverse(key, d)
    requires |text| % (key.len - 1) == 0
    ensures Readable(key, Encoded(key, d, text)) == |Encoded(key, d, text)|
    ensures Decoded(key, Encoded(key, d, text)) == text
    decreases |text|
  {
    hide ModPow, BeValue, ToBe, Power, Minimal, Inverse, Reduced, DecryptBlock;
    var k := key.len;
    if |text| < k - 1 {
      SmallRemainder(|text|, k - 1);
    } else {
      var first, rest := text[..k - 1], text[k - 1..];
      BlockUndone(key, d, first);
      OneMore(|rest|, k - 1);
      DecodingUndoesSigning(key, d, rest);
      var block := ToBe(ModPow(BeValue(first), d, key.n), k);
      var s := Encoded(key, d, text);
      assert s[..k] == block && s[k..] == Encoded(key, d, rest);
      assert text == first + rest;
    }
  }
}

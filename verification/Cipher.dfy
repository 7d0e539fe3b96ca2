/** ECB decryption (NIST SP 800-38A, section 6.1) of the encrypted ranges of a whole file: the
    reference every windowed read is compared with. The block function itself is a parameter. */
module BlockCipher {
  import opened Bytes

  const BLOCK_SIZE := 16

  type Block = b: seq<byte> | |b| == BLOCK_SIZE witness seq(16, _ => 0)
  type Cipher = Block -> Block

  datatype Range = Range(start: nat, count: nat) {
    function End(): nat { start + count * BLOCK_SIZE }

    predicate Has(p: int) { start <= p < End() }
  }

  /** Ranges are non-empty, lie in the file, are sorted by end and pairwise disjoint. */
  predicate WellPlaced(rs: seq<Range>, fileLen: nat) {
    && (forall i :: 0 <= i < |rs| ==> 0 < rs[i].count && rs[i].End() <= fileLen)
    && SortedByEnd(rs)
    && (forall i, j :: 0 <= i < j < |rs| ==> rs[i].End() <= rs[j].start || rs[j].End() <= rs[i].start)
  }

  predicate SortedByEnd(rs: seq<Range>) {
    forall i, j :: 0 <= i < j < |rs| ==> rs[i].End() <= rs[j].End()
  }

  /** For non-empty disjoint ranges, the order by end is the order in the file. */
  lemma EarlierEndsFirst(rs: seq<Range>, fileLen: nat, i: nat, j: nat)
    requires WellPlaced(rs, fileLen) && i < j < |rs|
    ensures rs[i].End() <= rs[j].start
  {
    assert rs[i].start < rs[i].End() <= rs[j].End();
  }

  /** No position lies in two ranges. */
  lemma OnlyHolder(rs: seq<Range>, fileLen: nat, i: nat, j: nat, p: int)
    requires WellPlaced(rs, fileLen) && i < |rs| && j < |rs| && rs[i].Has(p) && rs[j].Has(p)
    ensures i == j
  {
  }

  function DecryptBlocks(dec: Cipher, s: seq<byte>): (r: seq<byte>)
    requires |s| % BLOCK_SIZE == 0
    ensures |r| == |s|
  {
    if s == [] then [] else dec(s[..BLOCK_SIZE]) + DecryptBlocks(dec, s[BLOCK_SIZE..])
  }

  function DecryptRange(dec: Cipher, file: seq<byte>, r: Range): (out: seq<byte>)
    requires r.End() <= |file|
    ensures |out| == |file|
  {
    file[..r.start] + DecryptBlocks(dec, file[r.start..r.End()]) + file[r.End()..]
  }

  /** Decrypt every block of every range of the whole file. */
  function WholeFile(dec: Cipher, file: seq<byte>, rs: seq<Range>): (out: seq<byte>)
    requires forall r :: r in rs ==> r.End() <= |file|
    ensures |out| == |file|
    decreases |rs|
  {
    if rs == [] then file else WholeFile(dec, DecryptRange(dec, file, rs[0]), rs[1..])
  }

  /** The block of `r` that holds position `p`. */
  function BlockStart(r: Range, p: int): int
    requires r.Has(p)
  {
    r.start + (p - r.start) / BLOCK_SIZE * BLOCK_SIZE
  }

  function PlainByte(dec: Cipher, file: seq<byte>, r: Range, p: int): byte
    requires r.End() <= |file| && r.Has(p)
  {
    var b := BlockStart(r, p);
    dec(file[b..b + BLOCK_SIZE])[p - b]
  }

  /** One octet of the plaintext file, without building the others. */
  function Plain(dec: Cipher, file: seq<byte>, rs: seq<Range>, p: int): byte
    requires forall r :: r in rs ==> r.End() <= |file|
    requires 0 <= p < |file|
  {
    if rs == [] then file[p]
    else if rs[0].Has(p) then PlainByte(dec, file, rs[0], p)
    else Plain(dec, file, rs[1..], p)
  }

  lemma {:induction false} DecryptBlocksAt(dec: Cipher, s: seq<byte>, i: nat)
    requires |s| % BLOCK_SIZE == 0 && i < |s|
    ensures var b := i / BLOCK_SIZE * BLOCK_SIZE;
            b + BLOCK_SIZE <= |s| && DecryptBlocks(dec, s)[i] == dec(s[b..b + BLOCK_SIZE])[i - b]
  {
    if i >= BLOCK_SIZE {
      DecryptBlocksAt(dec, s[BLOCK_SIZE..], i - BLOCK_SIZE);
      var b := i / BLOCK_SIZE * BLOCK_SIZE;
      assert (i - BLOCK_SIZE) / BLOCK_SIZE * BLOCK_SIZE == b - BLOCK_SIZE;
      SliceOfSlice(s, BLOCK_SIZE, |s|, b - BLOCK_SIZE, b);
      assert s[BLOCK_SIZE..|s|] == s[BLOCK_SIZE..];
    }
  }

  lemma DecryptRangeAt(dec: Cipher, file: seq<byte>, r: Range, p: int)
    requires r.End() <= |file| && 0 <= p < |file|
    ensures DecryptRange(dec, file, r)[p] == if r.Has(p) then PlainByte(dec, file, r, p) else file[p]
  {
    if r.Has(p) {
      var s := file[r.start..r.End()];
      DecryptBlocksAt(dec, s, p - r.start);
      var b := (p - r.start) / BLOCK_SIZE * BLOCK_SIZE;
      SliceOfSlice(file, r.start, r.End(), b, b + BLOCK_SIZE);
    }
  }

  lemma {:induction false} PlainCases(dec: Cipher, file: seq<byte>, rs: seq<Range>, p: int)
    requires WellPlaced(rs, |file|) && 0 <= p < |file|
    ensures forall r :: r in rs && r.Has(p) ==> Plain(dec, file, rs, p) == PlainByte(dec, file, r, p)
    ensures (forall r :: r in rs ==> !r.Has(p)) ==> Plain(dec, file, rs, p) == file[p]
  {
    if rs == [] {
    } else {
      PlainCases(dec, file, rs[1..], p);
      forall r | r in rs && r.Has(p)
        ensures Plain(dec, file, rs, p) == PlainByte(dec, file, r, p)
      {
        if rs[0].Has(p) {
          var k :| 0 <= k < |rs| && rs[k] == r;
          assert k == 0 by { OnlyHolder(rs, |file|, 0, k, p); }
        } else {
          assert r in rs[1..];
        }
      }
    }
  }

  lemma DecryptRangeBeside(dec: Cipher, file: seq<byte>, r: Range, t: Range, p: int)
    requires r.End() <= t.start && t.End() <= |file| && t.Has(p)
    ensures PlainByte(dec, DecryptRange(dec, file, r), t, p) == PlainByte(dec, file, t, p)
  {
    hide DecryptRange;
    var b, out := BlockStart(t, p), DecryptRange(dec, file, r);
    assert t.start <= b && b + BLOCK_SIZE <= t.End();
    forall i | b <= i < b + BLOCK_SIZE ensures out[i] == file[i] {
      DecryptRangeAt(dec, file, r, i);
    }
    assert out[b..b + BLOCK_SIZE] == file[b..b + BLOCK_SIZE];
  }

  lemma TailWellPlaced(rs: seq<Range>, fileLen: nat)
    requires WellPlaced(rs, fileLen) && rs != []
    ensures WellPlaced(rs[1..], fileLen)
    ensures forall r :: r in rs[1..] ==> rs[0].End() <= r.start
  {
    forall r | r in rs[1..] ensures rs[0].End() <= r.start {
      var k :| 0 <= k < |rs| - 1 && rs[1..][k] == r;
      EarlierEndsFirst(rs, fileLen, 0, k + 1);
    }
  }

  /** Decrypting one range leaves what the later ranges decrypt to. */
  lemma {:induction false} PlainAfterRange(dec: Cipher, file: seq<byte>, r: Range, ts: seq<Range>, p: int)
    requires r.End() <= |file| && 0 <= p < |file|
    requires forall t :: t in ts ==> r.End() <= t.start && t.End() <= |file|
    ensures Plain(dec, DecryptRange(dec, file, r), ts, p) ==
            if r.Has(p) then PlainByte(dec, file, r, p) else Plain(dec, file, ts, p)
  {
    if ts == [] {
      DecryptRangeAt(dec, file, r, p);
    } else {
      PlainAfterRange(dec, file, r, ts[1..], p);
      assert ts[0] in ts;
      if ts[0].Has(p) {
        DecryptRangeBeside(dec, file, r, ts[0], p);
      }
    }
  }

  /** The whole-file decryption, octet by octet. */
  lemma {:induction false} WholeFileAt(dec: Cipher, file: seq<byte>, rs: seq<Range>, p: int)
    requires WellPlaced(rs, |file|) && 0 <= p < |file|
    ensures WholeFile(dec, file, rs)[p] == Plain(dec, file, rs, p)
    decreases |rs|
  {
    if rs == [] {
    } else {
      TailWellPlaced(rs, |file|);
      WholeFileAt(dec, DecryptRange(dec, file, rs[0]), rs[1..], p);
      PlainAfterRange(dec, file, rs[0], rs[1..], p);
    }
  }
}

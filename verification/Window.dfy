/** One call of the window decryptor (`Aes128::decrypt`): a buffer that covers part of a file is
    decrypted in place, with 16 octets of context on either side. */
module WindowDecryptor {
  import opened Bytes
  import opened BlockCipher

  /** The source as it is, and two repairs of it: whole blocks resume right behind a cut block and the
      context before a buffer is ciphertext, and moreover the context behind it reaches over short buffers. */
  datatype Version = AsWritten | HeadRepaired | FullyRepaired

  /** Decrypt a run of octets that starts on a block boundary; a last partial block borrows its
      missing octets from `tail`. */
  function DecryptRun(dec: Cipher, s: seq<byte>, tail: Block): (r: seq<byte>)
    ensures |r| == |s|
  {
    if s == [] then []
    else if |s| < BLOCK_SIZE then dec(s + tail[..BLOCK_SIZE - |s|])[..|s|]
    else dec(s[..BLOCK_SIZE]) + DecryptRun(dec, s[BLOCK_SIZE..], tail)
  }

  /** Where decryption of `r` begins: its own start, or the block of `r` that holds `fo`. */
  function StartOffset(fo: nat, r: Range): nat {
    if r.start <= fo then r.start + (fo - r.start) / BLOCK_SIZE * BLOCK_SIZE else r.start
  }

  /** How many octets of the cut block precede the buffer; 0 when no block of `r` is cut at `fo`. */
  function Cut(fo: nat, r: Range): (left: nat)
    ensures left < BLOCK_SIZE
  {
    if r.start <= fo then (fo - r.start) % BLOCK_SIZE else 0
  }

  /** The block cut at the buffer's start, put together from head, body and tail. */
  function CutBlock(body: seq<byte>, head: Block, tail: Block, left: nat): Block
    requires left < BLOCK_SIZE
  {
    var mid := Min(BLOCK_SIZE - left, |body|);
    head[BLOCK_SIZE - left..] + body[..mid] + tail[..BLOCK_SIZE - left - mid]
  }

  /** The buffer after its first, cut block is rewritten. */
  function MendCut(dec: Cipher, body: seq<byte>, head: Block, tail: Block, left: nat): (r: seq<byte>)
    requires left < BLOCK_SIZE
    ensures |r| == |body|
  {
    var mid := Min(BLOCK_SIZE - left, |body|);
    Overwrite(body, 0, dec(CutBlock(body, head, tail, left))[left..left + mid])
  }

  function Mended(dec: Cipher, fo: nat, body: seq<byte>, head: Block, tail: Block, r: Range): (m: seq<byte>)
    ensures |m| == |body|
  {
    var left := Cut(fo, r);
    if left > 0 then MendCut(dec, body, head, tail, left) else body
  }

  /** The index at which whole blocks resume. After a cut block the source resumes at
      `fo + (BLOCK_SIZE - left)`: a file offset where an index into the body is meant. */
  function Resume(v: Version, fo: nat, r: Range): nat {
    var left := Cut(fo, r);
    if left == 0 then StartOffset(fo, r) - fo
    else if v.AsWritten? then fo + (BLOCK_SIZE - left)
    else BLOCK_SIZE - left
  }

  function DecryptInRange(v: Version, dec: Cipher, fo: nat, body: seq<byte>, head: Block, tail: Block,
                          r: Range): (out: seq<byte>)
    requires fo < r.End()
    ensures |out| == |body|
  {
    var mended := Mended(dec, fo, body, head, tail, r);
    var start, end := Resume(v, fo, r), Min(|body|, r.End() - fo);
    if start >= end then mended else Overwrite(mended, start, DecryptRun(dec, mended[start..end], tail))
  }

  predicate EndAfter(rs: seq<Range>, k: nat, fo: nat) {
    forall j :: k <= j < |rs| ==> fo < rs[j].End()
  }

  /** The loop over the ranges from index `k` on, with its early exit. */
  function DecryptFrom(v: Version, dec: Cipher, fo: nat, body: seq<byte>, head: Block, tail: Block, rs: seq<Range>,
                       k: nat): (out: seq<byte>)
    requires k <= |rs| && EndAfter(rs, k, fo)
    ensures |out| == |body|
    decreases |rs| - k
  {
    if k == |rs| || rs[k].start >= fo + |body| then body
    else DecryptFrom(v, dec, fo, DecryptInRange(v, dec, fo, body, head, tail, rs[k]), head, tail, rs, k + 1)
  }

  /** `partition_point`: how many leading ranges end at or before `fo`. */
  function FirstAfter(rs: seq<Range>, fo: nat): (k: nat)
    ensures k <= |rs|
    ensures forall i :: 0 <= i < k ==> rs[i].End() <= fo
    ensures k < |rs| ==> fo < rs[k].End()
  {
    if rs == [] || fo < rs[0].End() then 0
    else
      var k := FirstAfter(rs[1..], fo);
      assert forall i :: 1 <= i < k + 1 ==> rs[i] == rs[1..][i - 1];
      k + 1
  }

  function DecryptWindow(v: Version, dec: Cipher, fo: nat, body: seq<byte>, head: Block, tail: Block,
                         rs: seq<Range>): (out: seq<byte>)
    requires SortedByEnd(rs)
    ensures |out| == |body|
  {
    DecryptFrom(v, dec, fo, body, head, tail, rs, FirstAfter(rs, fo))
  }

  /** Whole blocks in place, then the partial block at the buffer's end. */
  method DecryptSlice(dec: Cipher, body: array<byte>, start: nat, end: nat, tail: Block)
    requires start <= end <= body.Length
    modifies body
    ensures body[..] == Overwrite(old(body[..]), start, DecryptRun(dec, old(body[start..end]), tail))
  {
    hide DecryptRun, RunSoFar, Overwrite;
    ghost var was := body[..];
    assert body[start..end] == was[start..end];
    ghost var done: seq<byte> := [];
    var at := start;
    RunStart(dec, was, start, end, tail);
    while end - at >= BLOCK_SIZE
      invariant start <= at <= end
      invariant |done| == at - start && RunSoFar(dec, was, start, at, end, done, tail)
      invariant body[..] == Overwrite(was, start, done)
    {
      OverwriteBeyond(was, start, done, at, at + BLOCK_SIZE);
      var block: Block := dec(body[at..at + BLOCK_SIZE]);
      CopyInto(body, at, block);
      OverwriteTwice(was, start, done, block);
      RunStep(dec, was, start, at, end, done, tail);
      done := done + block;
      at := at + BLOCK_SIZE;
    }
    if at < end {
      var mid := end - at;
      OverwriteBeyond(was, start, done, at, end);
      var block: Block := dec(body[at..end] + tail[..BLOCK_SIZE - mid]);
      CopyInto(body, at, block[..mid]);
      OverwriteTwice(was, start, done, block[..mid]);
      RunLast(dec, was, start, at, end, done, tail);
      done := done + block[..mid];
    } else {
      RunOver(dec, was, start, end, done, tail);
    }
  }

  lemma RunLast(dec: Cipher, was: seq<byte>, start: nat, at: nat, end: nat, done: seq<byte>, tail: Block)
    requires start <= at < end <= |was| && end - at < BLOCK_SIZE
    requires RunSoFar(dec, was, start, at, end, done, tail)
    ensures done + dec(was[at..end] + tail[..BLOCK_SIZE - (end - at)])[..end - at]
            == DecryptRun(dec, was[start..end], tail)
  {
  }

  lemma RunOver(dec: Cipher, was: seq<byte>, start: nat, end: nat, done: seq<byte>, tail: Block)
    requires start <= end <= |was| && RunSoFar(dec, was, start, end, end, done, tail)
    ensures done == DecryptRun(dec, was[start..end], tail)
  {
  }

  ghost predicate RunSoFar(dec: Cipher, was: seq<byte>, start: nat, at: nat, end: nat, done: seq<byte>, tail: Block)
    requires start <= at <= end <= |was|
  {
    |done| == at - start && done + DecryptRun(dec, was[at..end], tail) == DecryptRun(dec, was[start..end], tail)
  }

  lemma RunStart(dec: Cipher, was: seq<byte>, start: nat, end: nat, tail: Block)
    requires start <= end <= |was|
    ensures RunSoFar(dec, was, start, start, end, [], tail) && Overwrite(was, start, []) == was
  {
  }

  lemma RunStep(dec: Cipher, was: seq<byte>, start: nat, at: nat, end: nat, done: seq<byte>, tail: Block)
    requires start <= at <= at + BLOCK_SIZE <= end <= |was|
    requires RunSoFar(dec, was, start, at, end, done, tail)
    ensures RunSoFar(dec, was, start, at + BLOCK_SIZE, end, done + dec(was[at..at + BLOCK_SIZE]), tail)
  {
    SliceOfSlice(was, at, end, 0, BLOCK_SIZE);
    SliceOfSlice(was, at, end, BLOCK_SIZE, end - at);
    assert was[at..end][BLOCK_SIZE..] == was[at..end][BLOCK_SIZE..end - at];
    var block, later := dec(was[at..at + BLOCK_SIZE]), DecryptRun(dec, was[at + BLOCK_SIZE..end], tail);
    assert done + (block + later) == (done + block) + later;
  }

  /** `Aes128::decrypt` on the first `len` octets of a buffer. */
  method Decrypt(dec: Cipher, ranges: seq<Range>, body: array<byte>, len: nat, head: Block, tail: Block,
                 fileOffset: u32)
    requires len <= body.Length && fileOffset + len < U32_LIMIT
    requires SortedByEnd(ranges) && forall r :: r in ranges ==> r.End() < U32_LIMIT
    modifies body
    ensures body[..len] == DecryptWindow(AsWritten, dec, fileOffset, old(body[..len]), head, tail, ranges)
    ensures body[len..] == old(body[len..])
  {
    var k := FirstAfter(ranges, fileOffset);
    while k < |ranges|
      invariant k <= |ranges| && EndAfter(ranges, k, fileOffset)
      invariant body[len..] == old(body[len..])
      invariant DecryptFrom(AsWritten, dec, fileOffset, body[..len], head, tail, ranges, k)
                == DecryptWindow(AsWritten, dec, fileOffset, old(body[..len]), head, tail, ranges)
    {
      var range := ranges[k];
      assert range in ranges;
      if range.start >= fileOffset + len {
        break;
      }
      DecryptOneRange(dec, range, body, len, head, tail, fileOffset);
      k := k + 1;
    }
  }

  /** The loop body: one range. */
  method DecryptOneRange(dec: Cipher, range: Range, body: array<byte>, len: nat, head: Block, tail: Block,
                         fileOffset: u32)
    requires len <= body.Length && fileOffset + len < U32_LIMIT
    requires range.start < fileOffset + len && fileOffset < range.End() < U32_LIMIT
    modifies body
    ensures body[..len] == DecryptInRange(AsWritten, dec, fileOffset, old(body[..len]), head, tail, range)
    ensures body[len..] == old(body[len..])
  {
    hide DecryptRun, Mended, Resume;
    ghost var was := body[..len];
    var start := DecryptCutBlock(dec, range, body, len, head, tail, fileOffset);
    ghost var mended := body[..];
    assert mended[..len] == Mended(dec, fileOffset, was, head, tail, range);
    var end := Min(len, range.End() - fileOffset);
    if start < end {
      DecryptSlice(dec, body, start, end, tail);
      SliceOfSlice(mended, 0, len, start, end);
      PrefixOfOverwrite(mended, start, DecryptRun(dec, mended[start..end], tail), len);
    }
  }

  lemma BlocksBefore(fo: nat, r: Range)
    requires r.start <= fo
    ensures fo - StartOffset(fo, r) == Cut(fo, r)
  {
    var d := fo - r.start;
    assert Cut(fo, r) == d % BLOCK_SIZE;
    assert StartOffset(fo, r) == r.start + d / BLOCK_SIZE * BLOCK_SIZE;
  }

  /** The block cut at the buffer's start; returns the index at which whole blocks resume. */
  method DecryptCutBlock(dec: Cipher, range: Range, body: array<byte>, len: nat, head: Block, tail: Block,
                         fileOffset: u32)
    returns (start: nat)
    requires len <= body.Length && fileOffset + len < U32_LIMIT
    requires range.start < fileOffset + len && fileOffset < range.End() < U32_LIMIT
    modifies body
    ensures start == Resume(AsWritten, fileOffset, range)
    ensures body[..len] == Mended(dec, fileOffset, old(body[..len]), head, tail, range)
    ensures body[len..] == old(body[len..])
  {
    ghost var was := body[..];
    var startOffset: u32 := range.start;
    if startOffset <= fileOffset {
      startOffset := startOffset + (fileOffset - startOffset) / BLOCK_SIZE * BLOCK_SIZE;
    }
    if startOffset < fileOffset {
      BlocksBefore(fileOffset, range);
      var left := (fileOffset - startOffset) % BLOCK_SIZE;
      var leftLen := BLOCK_SIZE - left;
      var midLen := Min(leftLen, len);
      var right := left + midLen;
      var block: Block := head[leftLen..] + body[..midLen] + tail[..BLOCK_SIZE - right];
      assert block == CutBlock(was[..len], head, tail, left) by { assert was[..len][..midLen] == body[..midLen]; }
      block := dec(block);
      CopyInto(body, 0, block[left..right]);
      PrefixOfOverwrite(was, 0, block[left..right], len);
      start := fileOffset + leftLen;
    } else {
      start := startOffset - fileOffset;
    }
  }
}

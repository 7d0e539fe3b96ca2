/** What one call of the window decryptor achieves, compared with the whole-file decryption. */
module WindowTheorem {
  import opened Bytes
  import opened BlockCipher
  import opened WindowDecryptor

  /** A block of `r` lies on both sides of file position `p`. */
  predicate CutBy(r: Range, p: nat) {
    r.start < p < r.End() && (p - r.start) % BLOCK_SIZE != 0
  }

  predicate CutsBlock(rs: seq<Range>, p: nat) {
    exists r :: r in rs && CutBy(r, p)
  }

  /** `head` ends with the file's octets before `p`. */
  predicate HeadMatches(head: Block, file: seq<byte>, p: nat)
    requires p <= |file|
  {
    forall j :: Max(0, BLOCK_SIZE - p) <= j < BLOCK_SIZE ==> head[j] == file[p - BLOCK_SIZE + j]
  }

  /** `tail` begins with the `n` octets of the file from `p` on. */
  predicate TailMatches(tail: Block, file: seq<byte>, p: nat, n: nat) {
    p + n <= |file| && n <= BLOCK_SIZE && forall j :: 0 <= j < n ==> tail[j] == file[p + j]
  }

  /** `tail` holds what a block of `r` cut at `p` has from `p` on, if there is one. */
  predicate TailServes(tail: Block, file: seq<byte>, p: nat, r: Range) {
    CutBy(r, p) ==> TailMatches(tail, file, p, BLOCK_SIZE - Cut(p, r))
  }

  /** Octets of the buffer the source leaves behind after a cut first block. */
  predicate Missed(v: Version, fo: nat, len: nat, r: Range, i: nat) {
    v.AsWritten? && CutBy(r, fo) && BLOCK_SIZE - Cut(fo, r) <= i < Min(len, r.End() - fo)
  }

  /** Octet `m` of block `q` of a run over file octets from `at` on. */
  lemma {:induction false} RunAt(dec: Cipher, s: seq<byte>, tail: Block, file: seq<byte>, at: nat, q: nat, m: nat)
    requires m < BLOCK_SIZE && q * BLOCK_SIZE + m < |s|
    requires at + |s| <= |file| && s == file[at..at + |s|]
    requires |s| < (q + 1) * BLOCK_SIZE ==>
               TailMatches(tail, file, at + |s|, (q + 1) * BLOCK_SIZE - |s|)
    ensures var b := at + q * BLOCK_SIZE;
            b + BLOCK_SIZE <= |file| && DecryptRun(dec, s, tail)[q * BLOCK_SIZE + m] == dec(file[b..b + BLOCK_SIZE])[m]
  {
    if |s| < BLOCK_SIZE {
      assert s + tail[..BLOCK_SIZE - |s|] == file[at..at + BLOCK_SIZE];
    } else if q == 0 {
      assert s[..BLOCK_SIZE] == file[at..at + BLOCK_SIZE];
    } else {
      RunAt(dec, s[BLOCK_SIZE..], tail, file, at + BLOCK_SIZE, q - 1, m);
      var b := at + q * BLOCK_SIZE;
      assert at + BLOCK_SIZE + (q - 1) * BLOCK_SIZE == b;
    }
  }

  lemma CutBlockInRange(r: Range, p: nat)
    requires CutBy(r, p)
    ensures 0 < Cut(p, r) <= p - r.start && p - Cut(p, r) + BLOCK_SIZE <= r.End()
  {
  }

  /** A buffer that ends before the block cut at its start does is itself inside that block. */
  lemma ShortBufferIsCut(r: Range, fo: nat, len: nat)
    requires CutBy(r, fo) && len < BLOCK_SIZE - Cut(fo, r)
    ensures CutBy(r, fo + len) && Cut(fo + len, r) == Cut(fo, r) + len
  {
    CutBlockInRange(r, fo);
    assert (fo + len - r.start) % BLOCK_SIZE == Cut(fo, r) + len;
  }

  lemma CutBlockIsFileBlock(file: seq<byte>, fo: nat, body: seq<byte>, head: Block, tail: Block, r: Range)
    requires r.End() <= |file| && fo + |body| <= |file| && CutBy(r, fo)
    requires forall j :: 0 <= j < |body| && r.Has(fo + j) ==> body[j] == file[fo + j]
    requires HeadMatches(head, file, fo)
    requires TailServes(tail, file, fo + |body|, r)
    ensures var left := Cut(fo, r);
            fo - left + BLOCK_SIZE <= r.End()
                && CutBlock(body, head, tail, left) == file[fo - left..fo - left + BLOCK_SIZE]
  {
    CutBlockInRange(r, fo);
    var left := Cut(fo, r);
    if |body| < BLOCK_SIZE - left {
      ShortBufferIsCut(r, fo, |body|);
    }
    hide CutBy, Cut;
    CutBlockOctets(file, fo, body, head, tail, r.End(), left);
  }

  lemma CutBlockOctets(file: seq<byte>, fo: nat, body: seq<byte>, head: Block, tail: Block, end: nat, left: nat)
    requires 0 < left < BLOCK_SIZE && left <= fo && fo - left + BLOCK_SIZE <= end <= |file| && fo + |body| <= |file|
    requires forall j :: 0 <= j < |body| && fo + j < end ==> body[j] == file[fo + j]
    requires HeadMatches(head, file, fo)
    requires |body| < BLOCK_SIZE - left ==> TailMatches(tail, file, fo + |body|, BLOCK_SIZE - left - |body|)
    ensures CutBlock(body, head, tail, left) == file[fo - left..fo - left + BLOCK_SIZE]
  {
    var mid := Min(BLOCK_SIZE - left, |body|);
    var block := CutBlock(body, head, tail, left);
    forall j | 0 <= j < BLOCK_SIZE ensures block[j] == file[fo - left + j] {
      if j < left {
        assert block[j] == head[BLOCK_SIZE - left + j];
      } else if j < left + mid {
        assert block[j] == body[j - left];
      } else {
        assert block[j] == tail[j - left - mid];
      }
    }
  }

  lemma CutRangeAt(dec: Cipher, file: seq<byte>, fo: nat, body: seq<byte>, head: Block, tail: Block, r: Range, i: nat)
    requires fo + |body| <= |file| && i < |body|
    requires r.End() <= |file| && CutBy(r, fo)
    requires forall j :: 0 <= j < |body| && r.Has(fo + j) ==> body[j] == file[fo + j]
    requires HeadMatches(head, file, fo)
    requires TailServes(tail, file, fo + |body|, r)
    ensures var m := Mended(dec, fo, body, head, tail, r)[i];
            if i < BLOCK_SIZE - Cut(fo, r) then r.Has(fo + i) && m == PlainByte(dec, file, r, fo + i) else m == body[i]
  {
    CutBlockIsFileBlock(file, fo, body, head, tail, r);
    CutBlockInRange(r, fo);
    MendedOctet(dec, body, head, tail, Cut(fo, r), i);
    if i < BLOCK_SIZE - Cut(fo, r) { CutBlockPlain(dec, file, fo, r, i); }
    hide CutBlock, MendCut, PlainByte, TailMatches, HeadMatches;
  }

  lemma MendedOctet(dec: Cipher, body: seq<byte>, head: Block, tail: Block, left: nat, i: nat)
    requires left < BLOCK_SIZE && i < |body|
    ensures MendCut(dec, body, head, tail, left)[i]
            == if i < BLOCK_SIZE - left then dec(CutBlock(body, head, tail, left))[left + i] else body[i]
  {
    hide CutBlock;
  }

  lemma CutBlockPlain(dec: Cipher, file: seq<byte>, fo: nat, r: Range, i: nat)
    requires r.End() <= |file| && CutBy(r, fo) && i < BLOCK_SIZE - Cut(fo, r) && fo + BLOCK_SIZE - Cut(fo, r) <= r.End()
    ensures Cut(fo, r) <= fo && r.Has(fo + i)
    ensures var left := Cut(fo, r);
            PlainByte(dec, file, r, fo + i) == dec(file[fo - left..fo - left + BLOCK_SIZE])[left + i]
  {
    var left := Cut(fo, r);
    assert fo - left - r.start == (fo - r.start) / BLOCK_SIZE * BLOCK_SIZE;
    assert BlockStart(r, fo + i) == fo - left;
  }

  /** Octet `m` of block `q`, counted from a block boundary of the range. */
  lemma PlainFromAligned(dec: Cipher, file: seq<byte>, r: Range, a: nat, q: nat, m: nat)
    requires r.start <= a && (a - r.start) % BLOCK_SIZE == 0 && m < BLOCK_SIZE
    requires r.End() <= |file| && r.Has(a + q * BLOCK_SIZE + m)
    ensures var b := a + q * BLOCK_SIZE;
            b + BLOCK_SIZE <= r.End() && PlainByte(dec, file, r, b + m) == dec(file[b..b + BLOCK_SIZE])[m]
  {
    var b := a + q * BLOCK_SIZE;
    assert BlockStart(r, b + m) == b;
  }

  /** A run ends in a partial block only where the buffer ends inside a block. */
  lemma PartialBlockIsCut(r: Range, fo: nat, len: nat, start: nat, end: nat, q: nat, m: nat)
    requires r.start <= fo + start && (fo + start - r.start) % BLOCK_SIZE == 0 && end == Min(len, r.End() - fo)
    requires start + q * BLOCK_SIZE + m < end < start + (q + 1) * BLOCK_SIZE
    ensures end == len && CutBy(r, fo + len) && BLOCK_SIZE - Cut(fo + len, r) == start + (q + 1) * BLOCK_SIZE - end
  {
    assert fo + len - r.start == (fo + start - r.start) + (len - start);
    assert (fo + len - r.start) % BLOCK_SIZE == len - start - q * BLOCK_SIZE;
  }

  lemma StraightRunAt(dec: Cipher, file: seq<byte>, fo: nat, body: seq<byte>, tail: Block, r: Range, start: nat,
                      end: nat, i: nat)
    requires fo + |body| <= |file| && r.End() <= |file|
    requires start <= i < end == Min(|body|, r.End() - fo)
    requires r.start <= fo + start && (fo + start - r.start) % BLOCK_SIZE == 0
    requires forall j :: 0 <= j < |body| && r.Has(fo + j) ==> body[j] == file[fo + j]
    requires TailServes(tail, file, fo + |body|, r)
    ensures DecryptRun(dec, body[start..end], tail)[i - start] == PlainByte(dec, file, r, fo + i)
  {
    hide DecryptRun, TailMatches, PlainByte, CutBy, Cut;
    var q, m := (i - start) / BLOCK_SIZE, (i - start) % BLOCK_SIZE;
    var s := body[start..end];
    assert s == file[fo + start..fo + end];
    assert i - start == q * BLOCK_SIZE + m;
    PlainFromAligned(dec, file, r, fo + start, q, m);
    if end - start < (q + 1) * BLOCK_SIZE {
      PartialBlockIsCut(r, fo, |body|, start, end, q, m);
    }
    RunAt(dec, s, tail, file, fo + start, q, m);
  }

  lemma StraightRangeAt(v: Version, dec: Cipher, file: seq<byte>, fo: nat, body: seq<byte>, head: Block, tail: Block,
                        r: Range, i: nat)
    requires fo + |body| <= |file| && i < |body|
    requires r.End() <= |file| && fo < r.End() && r.start < fo + |body| && Cut(fo, r) == 0
    requires forall j :: 0 <= j < |body| && r.Has(fo + j) ==> body[j] == file[fo + j]
    requires TailServes(tail, file, fo + |body|, r)
    ensures DecryptInRange(v, dec, fo, body, head, tail, r)[i]
            == if r.Has(fo + i) then PlainByte(dec, file, r, fo + i) else body[i]
  {
    hide DecryptRun, TailMatches, PlainByte;
    var start, end := Resume(v, fo, r), Min(|body|, r.End() - fo);
    assert start == Max(0, r.start - fo);
    if start <= i < end {
      StraightRunAt(dec, file, fo, body, tail, r, start, end, i);
    }
  }

  lemma OutsideRange(v: Version, dec: Cipher, fo: nat, body: seq<byte>, head: Block, tail: Block, r: Range, i: nat)
    requires fo < r.End() && r.start < fo + |body| && i < |body| && !r.Has(fo + i)
    ensures DecryptInRange(v, dec, fo, body, head, tail, r)[i] == body[i]
  {
    MendedOutside(dec, fo, body, head, tail, r, i);
    ResumeInRange(v, fo, |body|, r, i);
    hide Mended, DecryptRun, Resume, Cut;
  }

  lemma MendedOutside(dec: Cipher, fo: nat, body: seq<byte>, head: Block, tail: Block, r: Range, i: nat)
    requires fo < r.End() && i < |body| && !r.Has(fo + i)
    ensures Mended(dec, fo, body, head, tail, r)[i] == body[i]
  {
    hide CutBlock;
    if CutBy(r, fo) { CutBlockInRange(r, fo); }
  }

  lemma ResumeInRange(v: Version, fo: nat, len: nat, r: Range, i: nat)
    requires fo < r.End() && i < len
    ensures Resume(v, fo, r) <= i < Min(len, r.End() - fo) ==> r.Has(fo + i)
  {
  }

  /** One octet after the turn on one range. */
  lemma InRangeAt(v: Version, dec: Cipher, fo: nat, body: seq<byte>, head: Block, tail: Block, r: Range, i: nat)
    requires fo < r.End() && i < |body|
    ensures var mended := Mended(dec, fo, body, head, tail, r);
            var start, end := Resume(v, fo, r), Min(|body|, r.End() - fo);
            DecryptInRange(v, dec, fo, body, head, tail, r)[i]
            == if start <= i < end then DecryptRun(dec, mended[start..end], tail)[i - start] else mended[i]
  {
    hide Mended, DecryptRun, Resume;
  }

  /** Where a block is cut, and where blocks resume behind it. */
  lemma ResumeFollowsCut(v: Version, fo: nat, r: Range)
    requires CutBy(r, fo)
    ensures v.AsWritten? ==> Resume(v, fo, r) == fo + (BLOCK_SIZE - Cut(fo, r))
    ensures !v.AsWritten? ==>
              && Resume(v, fo, r) == BLOCK_SIZE - Cut(fo, r)
              && r.start <= fo + Resume(v, fo, r) && (fo + Resume(v, fo, r) - r.start) % BLOCK_SIZE == 0
  {
  }

  /** The run behind a cut block still holds ciphertext when it is decrypted. */
  lemma RunUntouched(dec: Cipher, fo: nat, body: seq<byte>, head: Block, tail: Block, r: Range, start: nat, end: nat)
    requires CutBy(r, fo) && start <= end <= |body| && start == BLOCK_SIZE - Cut(fo, r)
    ensures Mended(dec, fo, body, head, tail, r)[start..end] == body[start..end]
  {
    CutBlockInRange(r, fo);
    hide CutBlock, MendCut;
    var mended := Mended(dec, fo, body, head, tail, r);
    forall i | start <= i < end ensures mended[i] == body[i] {
      MendedOctet(dec, body, head, tail, Cut(fo, r), i);
    }
  }

  /** With the repaired index, the octets behind a cut block are decrypted. */
  lemma BehindCutAt(v: Version, dec: Cipher, file: seq<byte>, fo: nat, body: seq<byte>, head: Block, tail: Block,
                    r: Range, i: nat)
    requires !v.AsWritten? && fo + |body| <= |file| && i < |body| && r.End() <= |file| && r.Has(fo + i)
    requires CutBy(r, fo) && BLOCK_SIZE - Cut(fo, r) <= i
    requires forall j :: 0 <= j < |body| && r.Has(fo + j) ==> body[j] == file[fo + j]
    requires TailServes(tail, file, fo + |body|, r)
    ensures DecryptInRange(v, dec, fo, body, head, tail, r)[i] == PlainByte(dec, file, r, fo + i)
  {
    hide Mended, DecryptRun, PlainByte, Resume, Cut, TailServes, DecryptInRange;
    ResumeFollowsCut(v, fo, r);
    InRangeAt(v, dec, fo, body, head, tail, r, i);
    var start, end := Resume(v, fo, r), Min(|body|, r.End() - fo);
    RunUntouched(dec, fo, body, head, tail, r, start, end);
    StraightRunAt(dec, file, fo, body, tail, r, start, end, i);
  }

  /** One range: all its octets but the missed ones become plaintext. */
  lemma InsideRange(v: Version, dec: Cipher, file: seq<byte>, fo: nat, body: seq<byte>, head: Block, tail: Block,
                    r: Range, i: nat)
    requires fo + |body| <= |file| && i < |body| && r.End() <= |file| && r.Has(fo + i) && !Missed(v, fo, |body|, r, i)
    requires forall j :: 0 <= j < |body| && r.Has(fo + j) ==> body[j] == file[fo + j]
    requires CutBy(r, fo) ==> HeadMatches(head, file, fo)
    requires TailServes(tail, file, fo + |body|, r)
    ensures DecryptInRange(v, dec, fo, body, head, tail, r)[i] == PlainByte(dec, file, r, fo + i)
  {
    hide PlainByte, DecryptInRange, TailServes, HeadMatches, Mended, DecryptRun, Resume;
    if !CutBy(r, fo) {
      StraightRangeAt(v, dec, file, fo, body, head, tail, r, i);
    } else if i < BLOCK_SIZE - Cut(fo, r) {
      CutRangeAt(dec, file, fo, body, head, tail, r, i);
      InRangeAt(v, dec, fo, body, head, tail, r, i);
      ResumeFollowsCut(v, fo, r);
    } else {
      BehindCutAt(v, dec, file, fo, body, head, tail, r, i);
    }
  }

  /** As written, the octets between a cut block and the resumption index stay as they are. */
  lemma MissedInRange(dec: Cipher, fo: nat, body: seq<byte>, head: Block, tail: Block, r: Range, i: nat)
    requires i < |body| && CutBy(r, fo) && BLOCK_SIZE - Cut(fo, r) <= i < Resume(AsWritten, fo, r)
    ensures DecryptInRange(AsWritten, dec, fo, body, head, tail, r)[i] == body[i]
  {
    CutBlockInRange(r, fo);
    InRangeAt(AsWritten, dec, fo, body, head, tail, r, i);
    hide DecryptInRange, DecryptRun, Resume, MendCut;
    MendedOctet(dec, body, head, tail, Cut(fo, r), i);
  }

  /** The context the window needs: only where a block is cut at its start or end. */
  predicate ContextMatches(file: seq<byte>, fo: nat, len: nat, head: Block, tail: Block, rs: seq<Range>)
    requires fo + len <= |file|
  {
    && (CutsBlock(rs, fo) ==> HeadMatches(head, file, fo))
    && (forall r :: r in rs ==> TailServes(tail, file, fo + len, r))
  }

  lemma {:induction false} FromOutside(v: Version, dec: Cipher, fo: nat, body: seq<byte>, head: Block, tail: Block,
                                       rs: seq<Range>, k: nat, i: nat)
    requires k <= |rs| && EndAfter(rs, k, fo)
    requires i < |body| && forall j :: k <= j < |rs| ==> !rs[j].Has(fo + i)
    ensures DecryptFrom(v, dec, fo, body, head, tail, rs, k)[i] == body[i]
    decreases |rs| - k
  {
    if k < |rs| && rs[k].start < fo + |body| {
      OutsideRange(v, dec, fo, body, head, tail, rs[k], i);
      FromOutside(v, dec, fo, DecryptInRange(v, dec, fo, body, head, tail, rs[k]), head, tail, rs, k + 1, i);
    }
  }

  /** The buffer still holds the ciphertext of `r`. */
  predicate Untouched(file: seq<byte>, fo: nat, body: seq<byte>, r: Range)
    requires fo + |body| <= |file|
  {
    forall j :: 0 <= j < |body| && r.Has(fo + j) ==> body[j] == file[fo + j]
  }

  lemma OtherRangeUntouched(v: Version, dec: Cipher, file: seq<byte>, fo: nat, body: seq<byte>, head: Block,
                            tail: Block, r: Range, t: Range)
    requires fo < r.End() && r.start < fo + |body| && r.End() <= t.start && fo + |body| <= |file|
    requires Untouched(file, fo, body, t)
    ensures Untouched(file, fo, DecryptInRange(v, dec, fo, body, head, tail, r), t)
  {
    forall j | 0 <= j < |body| && t.Has(fo + j) ensures DecryptInRange(v, dec, fo, body, head, tail, r)[j] == body[j] {
      OutsideRange(v, dec, fo, body, head, tail, r, j);
    }
  }

  /** After its own turn, an octet of range `m` is not written again. */
  lemma RestOutside(v: Version, dec: Cipher, fo: nat, body: seq<byte>, head: Block, tail: Block, rs: seq<Range>, n: nat,
                    m: nat, i: nat)
    requires WellPlaced(rs, n) && m < |rs| && rs[m].Has(fo + i) && i < |body| && EndAfter(rs, m + 1, fo)
    ensures DecryptFrom(v, dec, fo, body, head, tail, rs, m + 1)[i] == body[i]
  {
    hide DecryptInRange, DecryptFrom;
    forall j | m < j < |rs| ensures !rs[j].Has(fo + i) {
      EarlierEndsFirst(rs, n, m, j);
    }
    FromOutside(v, dec, fo, body, head, tail, rs, m + 1, i);
  }

  lemma {:induction false} FromInside(v: Version, dec: Cipher, file: seq<byte>, fo: nat, body: seq<byte>, head: Block,
                                      tail: Block,
                                      rs: seq<Range>, k: nat, m: nat, i: nat)
    requires fo + |body| <= |file| && i < |body| && WellPlaced(rs, |file|)
    requires k <= m < |rs| && EndAfter(rs, k, fo)
    requires rs[m].Has(fo + i) && Untouched(file, fo, body, rs[m]) && !Missed(v, fo, |body|, rs[m], i)
    requires CutBy(rs[m], fo) ==> HeadMatches(head, file, fo)
    requires TailServes(tail, file, fo + |body|, rs[m])
    ensures DecryptFrom(v, dec, fo, body, head, tail, rs, k)[i] == PlainByte(dec, file, rs[m], fo + i)
    decreases m - k
  {
    hide DecryptInRange, PlainByte, Missed, TailServes, HeadMatches;
    var once := DecryptInRange(v, dec, fo, body, head, tail, rs[k]);
    if k == m {
      InsideRange(v, dec, file, fo, body, head, tail, rs[m], i);
      RestOutside(v, dec, fo, once, head, tail, rs, |file|, m, i);
    } else {
      EarlierEndsFirst(rs, |file|, k, m);
      OtherRangeUntouched(v, dec, file, fo, body, head, tail, rs[k], rs[m]);
      FromInside(v, dec, file, fo, once, head, tail, rs, k + 1, m, i);
    }
  }

  /** An octet of a range, in a buffer of ciphertext: plaintext unless missed. */
  lemma WindowInside(v: Version, dec: Cipher, file: seq<byte>, fo: nat, body: seq<byte>, head: Block, tail: Block,
                     rs: seq<Range>, k: nat, i: nat)
    requires WellPlaced(rs, |file|) && fo + |body| <= |file| && body == file[fo..fo + |body|]
    requires i < |body| && k < |rs| && rs[k].Has(fo + i) && !Missed(v, fo, |body|, rs[k], i)
    requires ContextMatches(file, fo, |body|, head, tail, rs)
    ensures DecryptWindow(v, dec, fo, body, head, tail, rs)[i] == PlainByte(dec, file, rs[k], fo + i)
  {
    hide PlainByte, Missed, DecryptFrom, TailServes, HeadMatches;
    assert rs[k] in rs;
    FromInside(v, dec, file, fo, body, head, tail, rs, FirstAfter(rs, fo), k, i);
  }

  /** A range with a block cut at the buffer's start is the first the loop comes to. */
  lemma CutRangeIsFirst(rs: seq<Range>, n: nat, fo: nat, k: nat)
    requires WellPlaced(rs, n) && k < |rs| && CutBy(rs[k], fo)
    ensures FirstAfter(rs, fo) == k
  {
    var first := FirstAfter(rs, fo);
    if first < k { EarlierEndsFirst(rs, n, first, k); }
  }

  /** As written, whatever the contexts and the contents: the octets of a range between a block cut at the
      buffer's start and the resumption index keep their ciphertext. */
  lemma WindowMissed(dec: Cipher, n: nat, fo: nat, body: seq<byte>, head: Block, tail: Block, rs: seq<Range>, k: nat,
                     i: nat)
    requires WellPlaced(rs, n) && k < |rs| && i < |body| && rs[k].Has(fo + i)
    requires CutBy(rs[k], fo) && BLOCK_SIZE - Cut(fo, rs[k]) <= i < Resume(AsWritten, fo, rs[k])
    ensures DecryptWindow(AsWritten, dec, fo, body, head, tail, rs)[i] == body[i]
  {
    hide DecryptInRange, Resume, Cut;
    CutRangeIsFirst(rs, n, fo, k);
    MissedInRange(dec, fo, body, head, tail, rs[k], i);
    hide WellPlaced;
    RestOutside(AsWritten, dec, fo, DecryptInRange(AsWritten, dec, fo, body, head, tail, rs[k]), head, tail, rs, n, k,
                i);
  }

  lemma WindowOutside(v: Version, dec: Cipher, fo: nat, body: seq<byte>, head: Block, tail: Block, rs: seq<Range>,
                      i: nat)
    requires SortedByEnd(rs) && i < |body| && forall r :: r in rs ==> !r.Has(fo + i)
    ensures DecryptWindow(v, dec, fo, body, head, tail, rs)[i] == body[i]
  {
    assert forall j :: 0 <= j < |rs| ==> rs[j] in rs;
    FromOutside(v, dec, fo, body, head, tail, rs, FirstAfter(rs, fo), i);
  }

  /** No octet is missed: a block cut at the buffer's start ends the range's part of the buffer. */
  predicate StartsCleanly(v: Version, rs: seq<Range>, fo: nat, len: nat) {
    v.AsWritten? ==> forall r :: r in rs && CutBy(r, fo) ==> Min(len, r.End() - fo) <= BLOCK_SIZE - Cut(fo, r)
  }

  lemma NotMissed(v: Version, rs: seq<Range>, fo: nat, len: nat, r: Range, i: nat)
    requires StartsCleanly(v, rs, fo, len) && r in rs
    ensures !Missed(v, fo, len, r, i)
  {
  }

  lemma WindowOctet(v: Version, dec: Cipher, file: seq<byte>, fo: nat, body: seq<byte>, head: Block, tail: Block,
                    rs: seq<Range>, i: nat)
    requires WellPlaced(rs, |file|) && fo + |body| <= |file| && body == file[fo..fo + |body|] && i < |body|
    requires ContextMatches(file, fo, |body|, head, tail, rs) && StartsCleanly(v, rs, fo, |body|)
    ensures DecryptWindow(v, dec, fo, body, head, tail, rs)[i] == Plain(dec, file, rs, fo + i)
  {
    hide DecryptWindow, Plain, PlainByte, Missed, StartsCleanly, ContextMatches;
    PlainCases(dec, file, rs, fo + i);
    if k :| 0 <= k < |rs| && rs[k].Has(fo + i) {
      assert rs[k] in rs;
      NotMissed(v, rs, fo, |body|, rs[k], i);
      WindowInside(v, dec, file, fo, body, head, tail, rs, k, i);
    } else {
      WindowOutside(v, dec, fo, body, head, tail, rs, i);
    }
  }

  /** One call rewrites the buffer to the whole file's plaintext. */
  lemma WindowIsWholeFileSlice(v: Version, dec: Cipher, file: seq<byte>, fo: nat, body: seq<byte>, head: Block,
                               tail: Block, rs: seq<Range>)
    requires WellPlaced(rs, |file|) && fo + |body| <= |file| && body == file[fo..fo + |body|]
    requires ContextMatches(file, fo, |body|, head, tail, rs) && StartsCleanly(v, rs, fo, |body|)
    ensures DecryptWindow(v, dec, fo, body, head, tail, rs) == WholeFile(dec, file, rs)[fo..fo + |body|]
  {
    hide DecryptWindow, Plain, WholeFile, StartsCleanly, ContextMatches;
    var out := DecryptWindow(v, dec, fo, body, head, tail, rs);
    forall i | 0 <= i < |body| ensures out[i] == WholeFile(dec, file, rs)[fo..fo + |body|][i] {
      WholeFileAt(dec, file, rs, fo + i);
      WindowOctet(v, dec, file, fo, body, head, tail, rs, i);
    }
  }

  /** A block function that changes every octet, and every octet but the first by an amount that
      depends on the first: it shows both a missed octet and a wrong head. */
  function Marker(b: Block): Block {
    seq(BLOCK_SIZE, j requires 0 <= j < BLOCK_SIZE => MarkerAt(b, j))
  }

  function MarkerAt(b: Block, j: nat): byte
    requires j < BLOCK_SIZE
  {
    if j == 0 then (b[0] as int + 1) % 256 else (b[j] as int + b[0] as int + 1) % 256
  }

  lemma MarkedByte(n: nat, r: Range, p: nat)
    requires r.End() <= n && r.Has(p)
    ensures PlainByte(Marker, Zeros(n), r, p) == 1
  {
    var b := BlockStart(r, p);
    assert Zeros(n)[b..b + BLOCK_SIZE] == Zeros(BLOCK_SIZE);
  }

  /** On a file of zeros, `Marker` turns exactly the octets in ranges into ones. */
  lemma MarkedZeros(n: nat, rs: seq<Range>, p: nat)
    requires WellPlaced(rs, n) && p < n
    ensures WholeFile(Marker, Zeros(n), rs)[p] == if exists r :: r in rs && r.Has(p) then 1 else 0
  {
    WholeFileAt(Marker, Zeros(n), rs, p);
    PlainCases(Marker, Zeros(n), rs, p);
    if r :| r in rs && r.Has(p) {
      MarkedByte(n, r, p);
    }
  }

  /** As written, the octet behind a cut block keeps its ciphertext if its range goes on, whatever the
      cipher and the contexts. */
  lemma MissedOctet(dec: Cipher, n: nat, fo: nat, body: seq<byte>, head: Block, tail: Block, rs: seq<Range>)
    returns (k: nat, i: nat)
    requires WellPlaced(rs, n) && !StartsCleanly(AsWritten, rs, fo, |body|)
    ensures k < |rs| && i < |body| && rs[k].Has(fo + i)
    ensures DecryptWindow(AsWritten, dec, fo, body, head, tail, rs)[i] == body[i]
  {
    k :| 0 <= k < |rs| && CutBy(rs[k], fo) && Min(|body|, rs[k].End() - fo) > BLOCK_SIZE - Cut(fo, rs[k]);
    i := BLOCK_SIZE - Cut(fo, rs[k]);
    ResumeFollowsCut(AsWritten, fo, rs[k]);
    WindowMissed(dec, n, fo, body, head, tail, rs, k, i);
  }

  /** The condition is exact: where it fails, a file of zeros is decrypted wrongly, whatever the contexts. */
  lemma UncleanStartMisses(n: nat, fo: nat, body: seq<byte>, head: Block, tail: Block, rs: seq<Range>)
    requires WellPlaced(rs, n) && fo + |body| <= n && body == Zeros(n)[fo..fo + |body|]
    requires !StartsCleanly(AsWritten, rs, fo, |body|)
    ensures DecryptWindow(AsWritten, Marker, fo, body, head, tail, rs) != WholeFile(Marker, Zeros(n),
            rs)[fo..fo + |body|]
  {
    hide DecryptWindow, WholeFile, Marker, StartsCleanly;
    var k, i := MissedOctet(Marker, n, fo, body, head, tail, rs);
    var plain := WholeFile(Marker, Zeros(n), rs);
    assert plain[fo + i] == 1 by {
      MarkedZeros(n, rs, fo + i);
      assert rs[k] in rs;
    }
    assert plain[fo..fo + |body|][i] == plain[fo + i];
  }
}

/** Why a read that is not on a right layout goes wrong: one archive and one block function expose every
    wrong layout of the source (all zeros and `Marker`), and every one of its first repair (all ones and
    `Flag`). */
module ReadWitness {
  import opened Bytes
  import opened BlockCipher
  import opened WindowDecryptor
  import opened WindowTheorem
  import opened CiphertextRing
  import opened AlignedStream
  import opened Mount
  import opened ReadTheorem

  /** The first octet of a buffer that starts inside a block of range `k`. */
  lemma CutFirstOctet(dec: Cipher, n: nat, fo: nat, body: seq<byte>, head: Block, tail: Block, rs: seq<Range>, k: nat)
    requires WellPlaced(rs, n) && k < |rs| && CutBy(rs[k], fo) && body != []
    ensures var left := Cut(fo, rs[k]);
            DecryptWindow(AsWritten, dec, fo, body, head, tail, rs)[0] == dec(CutBlock(body, head, tail, left))[left]
  {
    hide DecryptInRange, CutBlock, Cut;
    CutRangeIsFirst(rs, n, fo, k);
    FirstOctetMended(dec, fo, body, head, tail, rs[k]);
    hide WellPlaced;
    RestOutside(AsWritten, dec, fo, DecryptInRange(AsWritten, dec, fo, body, head, tail, rs[k]), head, tail, rs, n, k,
                0);
  }

  lemma FirstOctetMended(dec: Cipher, fo: nat, body: seq<byte>, head: Block, tail: Block, r: Range)
    requires CutBy(r, fo) && body != []
    ensures DecryptInRange(AsWritten, dec, fo, body, head, tail, r)[0]
            == dec(CutBlock(body, head, tail, Cut(fo, r)))[Cut(fo, r)]
  {
    CutBlockInRange(r, fo);
    ResumeFollowsCut(AsWritten, fo, r);
    InRangeAt(AsWritten, dec, fo, body, head, tail, r, 0);
    hide DecryptInRange, CutBlock, MendCut, DecryptRun, Resume;
    MendedOctet(dec, body, head, tail, Cut(fo, r), 0);
  }

  /** A head octet of 1 where the file has 0 shows in the first octet. */
  lemma WrongHeadShows(body: seq<byte>, head: Block, tail: Block, left: nat)
    requires 0 < left < BLOCK_SIZE && body != [] && body[0] == 0 && head[BLOCK_SIZE - left] == 1
    ensures Marker(CutBlock(body, head, tail, left))[left] == 2
  {
    var block := CutBlock(body, head, tail, left);
    assert block[0] == head[BLOCK_SIZE - left] && block[left] == body[0];
  }

  function Marked(n: nat, rs: seq<Range>): (plain: seq<byte>)
    requires WellPlaced(rs, n)
    ensures |plain| == n
  {
    WholeFile(Marker, Zeros(n), rs)
  }

  /** If a later buffer comes out right, no block is cut at its start. */
  lemma CutLaterBufferIsWrong(n: nat, rs: seq<Range>, off: nat, body: seq<byte>, prev: seq<byte>, tail: Block, k: nat)
    requires WellPlaced(rs, n) && BLOCK_SIZE <= |prev| <= off && body != [] && off + |body| <= n
    requires body == Zeros(n)[off..off + |body|] && prev == Marked(n, rs)[off - |prev|..off]
    requires k < |rs| && CutBy(rs[k], off)
    ensures DecryptWindow(AsWritten, Marker, off, body, HeadOf(prev), tail, rs)[0] != Marked(n, rs)[off]
  {
    CutBlockInRange(rs[k], off);
    hide DecryptWindow, WholeFile, Marker, CutBlock, WellPlaced, Cut, HeadOf;
    var left := Cut(off, rs[k]);
    assert rs[k] in rs && rs[k].Has(off - left);
    MarkedZeros(n, rs, off - left);
    assert prev[|prev| - left] == Marked(n, rs)[off - left] == 1;
    CutFirstOctet(Marker, n, off, body, HeadOf(prev), tail, rs, k);
    WrongHeadShows(body, HeadOf(prev), tail, left);
    MarkedZeros(n, rs, off);
  }

  predicate ClippedCovers(d: Delivery, plain: seq<byte>, from: nat, to: nat)
    requires from <= to <= |plain|
  {
    DoneAndCovers(Clipped(d, to), plain, from, to)
  }

  lemma FirstChunkRight(c: Chunk, d: Delivery, plain: seq<byte>, off: nat, end: nat, to: nat)
    requires off < end <= to <= |plain| && to < U32_LIMIT
    requires c.offset == off && off + |c.bytes| == end
    requires ClippedCovers(Prepend([c], d), plain, off, to)
    ensures c.bytes == plain[off..end]
    ensures ClippedCovers(d, plain, end, to)
  {
    assert Prepend([c], d).chunks[1..] == d.chunks;
    assert c.bytes[..|c.bytes|] == c.bytes;
    assert Clip(c, to) == Some(c);
  }

  ghost predicate Setting(k: Keyed, file: seq<byte>, fo: nat, to: nat, after: seq<Item>) {
    fo < to <= |file| < U32_LIMIT && WellPlaced(k.ranges, |file|) && IsAfter(after, file, to) && Usable(Some(k))
  }

  /** The request comes out right from the body at `off` on. */
  predicate RightFrom(k: Keyed, file: seq<byte>, fo: nat, to: nat, off: nat, after: seq<Item>, prev: seq<byte>)
    requires Setting(k, file, fo, to, after)
  {
    off <= to ==> ClippedCovers(FromBody(k, file, fo, to, off, after, prev), WholeFile(k.dec, file, k.ranges), off, to)
  }

  /** Then this buffer is right, and so is the rest. */
  lemma RightBody(k: Keyed, file: seq<byte>, fo: nat, to: nat, off: nat, after: seq<Item>, prev: seq<byte>)
      returns (out: seq<byte>)
    requires Setting(k, file, fo, to, after) && fo <= off < to && RightFrom(k, file, fo, to, off, after, prev)
    ensures out == BodyOut(k, file, off, to, prev, Following(k.version, file, off, to, after))
    ensures out == WholeFile(k.dec, file, k.ranges)[off..Min(off + BUFFER_LEN, to)]
    ensures RightFrom(k, file, fo, to, off + BUFFER_LEN, after, HeadSource(k, file, off, to, out))
  {
    hide DecryptWindow, FromBody, WholeFile, HeadSource, Following;
    out := BodyOut(k, file, off, to, prev, Following(k.version, file, off, to, after));
    BodyTurn(k, file, fo, to, off, after, prev);
    FirstChunkRight(Chunk(out, off),
                    FromBody(k, file, fo, to, off + BUFFER_LEN, after, HeadSource(k, file, off, to, out)),
                    WholeFile(k.dec, file, k.ranges), off, Min(off + BUFFER_LEN, to), to);
  }

  // ---- as written ----

  function Witness(rs: seq<Range>): Keyed { Keyed(Marker, rs, AsWritten) }

  /** A right delivery needs an uncut boundary before its every later buffer. */
  lemma LaterBufferUncut(n: nat, rs: seq<Range>, fo: nat, to: nat, off: nat, after: seq<Item>, prev: seq<byte>,
                         out: seq<byte>)
    requires Setting(Witness(rs), Zeros(n), fo, to, after) && fo <= off < to
    requires |prev| == BUFFER_LEN <= off && prev == Marked(n, rs)[off - BUFFER_LEN..off]
    requires out == BodyOut(Witness(rs), Zeros(n), off, to, prev, Following(AsWritten, Zeros(n), off, to, after))
    requires out == Marked(n, rs)[off..Min(off + BUFFER_LEN, to)]
    ensures !CutsBlock(rs, off)
  {
    hide DecryptWindow, Following, TailOf;
    if k :| 0 <= k < |rs| && CutBy(rs[k], off) {
      CutLaterBufferIsWrong(n, rs, off, Zeros(n)[off..Min(off + BUFFER_LEN, to)], prev,
                            TailOf(Following(AsWritten, Zeros(n), off, to, after)), k);
      assert false;
    }
  }

  lemma {:induction false} LaterBoundariesClean(n: nat, rs: seq<Range>, fo: nat, to: nat, off: nat, after: seq<Item>,
                                                prev: seq<byte>)
    requires Setting(Witness(rs), Zeros(n), fo, to, after) && fo <= off < to
             && RightFrom(Witness(rs), Zeros(n), fo, to, off, after, prev)
    requires |prev| == BUFFER_LEN <= off && prev == Marked(n, rs)[off - BUFFER_LEN..off]
    ensures !CutsBlock(rs, off) && BoundariesOk(AsWritten, rs, off, to)
    decreases Max(0, to - off)
  {
    hide DecryptWindow, BodyOut, WholeFile, RightFrom, CutsBlock, Setting;
    var out := RightBody(Witness(rs), Zeros(n), fo, to, off, after, prev);
    LaterBufferUncut(n, rs, fo, to, off, after, prev, out);
    if off + BUFFER_LEN >= to {
    } else {
      LaterBoundariesClean(n, rs, fo, to, off + BUFFER_LEN, after, out);
    }
  }

  /** A right delivery needs a first buffer that misses no octet. */
  lemma FirstBufferClean(n: nat, rs: seq<Range>, fo: nat, to: nat, after: seq<Item>, prev: seq<byte>, out: seq<byte>)
    requires Setting(Witness(rs), Zeros(n), fo, to, after)
    requires out == BodyOut(Witness(rs), Zeros(n), fo, to, prev, Following(AsWritten, Zeros(n), fo, to, after))
    requires out == Marked(n, rs)[fo..Min(fo + BUFFER_LEN, to)]
    ensures StartsCleanly(AsWritten, rs, fo, Min(to - fo, BUFFER_LEN))
  {
    hide DecryptWindow, WholeFile, TailOf, HeadOf, StartsCleanly, Following;
    if !StartsCleanly(AsWritten, rs, fo, Min(to - fo, BUFFER_LEN)) {
      UncleanStartMisses(n, fo, Zeros(n)[fo..Min(fo + BUFFER_LEN, to)], HeadOf(prev),
                         TailOf(Following(AsWritten, Zeros(n), fo, to, after)), rs);
    }
  }

  lemma RightFromStart(n: nat, rs: seq<Range>, fo: nat, to: nat, after: seq<Item>, prev: seq<byte>)
    requires Setting(Witness(rs), Zeros(n), fo, to, after) && RightFrom(Witness(rs), Zeros(n), fo, to, fo, after, prev)
    ensures RightLayout(AsWritten, rs, fo, to - fo)
  {
    hide BodyOut, RightFrom, WholeFile, StartsCleanly;
    var out := RightBody(Witness(rs), Zeros(n), fo, to, fo, after, prev);
    FirstBufferClean(n, rs, fo, to, after, prev, out);
    if fo + BUFFER_LEN < to {
      LaterBoundariesClean(n, rs, fo, to, fo + BUFFER_LEN, after, out);
    }
  }

  /** Right on the archive of zeros under `Marker` means a right layout. */
  lemma RightDeliveryNeedsRightLayout(file: DvdbndFile, rs: seq<Range>, w: nat, fo: nat, l: nat)
    requires IsWindowSize(w) && 0 < l && fo + l <= file.len && WellPlaced(rs, file.len)
    requires DeliversPlain(file, Zeros(file.dataOffset + file.len), Witness(rs), w, fo, l)
    ensures RightLayout(AsWritten, rs, fo, l)
  {
    hide RightLayout, FromBody, RawDelivery, Marker, WholeFile, Clipped;
    var bdt := Zeros(file.dataOffset + file.len);
    assert FileBytes(file, bdt) == Zeros(file.len);
    PlacedIsUsable(Witness(rs), file.len);
    var after, prev := RawDeliveryFromBodies(file, bdt, Witness(rs), w, fo, l);
    RightFromStart(file.len, rs, fo, fo + l, after, prev);
  }

  // ---- with the repaired head ----

  function Ones(n: nat): (s: seq<byte>)
    ensures |s| == n && forall i :: 0 <= i < n ==> s[i] == 1
  {
    seq(n, _ => 1)
  }

  /** A block function that tells a block of ones from every other. */
  function Flag(b: Block): Block {
    if b == Ones(BLOCK_SIZE) then seq(BLOCK_SIZE, _ => 2) else Zeros(BLOCK_SIZE)
  }

  function Flagged(rs: seq<Range>): Keyed { Keyed(Flag, rs, HeadRepaired) }

  /** The file as a tail that ends at `to` makes it look. */
  function Stopped(n: nat, to: nat): (s: seq<byte>)
    requires to <= n
    ensures |s| == n && forall i :: 0 <= i < n ==> s[i] == if i < to then 1 else 0
  {
    Ones(to) + Zeros(n - to)
  }

  lemma FlaggedByte(n: nat, r: Range, p: nat)
    requires r.End() <= n && r.Has(p)
    ensures PlainByte(Flag, Ones(n), r, p) == 2
  {
    var b := BlockStart(r, p);
    assert Ones(n)[b..b + BLOCK_SIZE] == Ones(BLOCK_SIZE);
  }

  /** A block of the stopped file that goes beyond `to`. */
  lemma StoppedByte(n: nat, to: nat, r: Range, b: nat)
    requires to <= n && r.End() <= n && CutBy(r, b) && b < to && BLOCK_SIZE - Cut(b, r) > to - b
    ensures r.Has(b - 1) && PlainByte(Flag, Stopped(n, to), r, b - 1) == 0
  {
    CutBlockInRange(r, b);
    var start := b - Cut(b, r);
    BlockOfLast(r, b);
    assert Stopped(n, to)[start..start + BLOCK_SIZE][BLOCK_SIZE - 1] == 0;
  }

  lemma BlockOfLast(r: Range, b: nat)
    requires CutBy(r, b)
    ensures r.Has(b - 1) && BlockStart(r, b - 1) == b - Cut(b, r)
  {
    var d := b - r.start;
    assert d == d / BLOCK_SIZE * BLOCK_SIZE + Cut(b, r);
    assert (d - 1) / BLOCK_SIZE == d / BLOCK_SIZE;
  }

  /** If a block cut at the boundary `b` reaches beyond the request, the last octet before it is wrong: the
      tail holds zeros there. */
  lemma ShortTailShows(n: nat, rs: seq<Range>, to: nat, off: nat, b: nat, prev: seq<byte>, m: nat)
    requires WellPlaced(rs, n) && m < |rs| && CutBy(rs[m], b) && BLOCK_SIZE - Cut(b, rs[m]) > to - b
    requires off < b < to <= n && HeadMatches(HeadOf(prev), Ones(n), off)
    ensures DecryptWindow(HeadRepaired, Flag, off, Ones(n)[off..b], HeadOf(prev), TailOf(Ones(n)[b..to]),
                          rs)[b - 1 - off] == 0
  {
    hide DecryptWindow, HeadOf, TailOf, PlainByte, Flag;
    var fake, body, tail := Stopped(n, to), Ones(n)[off..b], TailOf(Ones(n)[b..to]);
    assert body == fake[off..b];
    StoppedContext(n, to, off, b, prev, rs);
    BlockOfLast(rs[m], b);
    WindowInside(HeadRepaired, Flag, fake, off, body, HeadOf(prev), tail, rs, m, b - 1 - off);
    StoppedByte(n, to, rs[m], b);
  }

  lemma StoppedContext(n: nat, to: nat, off: nat, b: nat, prev: seq<byte>, rs: seq<Range>)
    requires WellPlaced(rs, n) && off < b < to <= n && to - b < BLOCK_SIZE && HeadMatches(HeadOf(prev), Ones(n), off)
    ensures ContextMatches(Stopped(n, to), off, b - off, HeadOf(prev), TailOf(Ones(n)[b..to]), rs)
  {
    hide HeadOf;
    var fake, tail := Stopped(n, to), TailOf(Ones(n)[b..to]);
    assert TailMatches(tail, fake, b, Min(BLOCK_SIZE, n - b));
    hide TailOf, TailMatches, TailServes;
    forall r | r in rs ensures TailServes(tail, fake, b, r) { EnoughServes(tail, fake, b, r); }
  }

  /** A right delivery has no such boundary. */
  lemma {:induction false} BoundariesReached(n: nat, rs: seq<Range>, fo: nat, to: nat, off: nat, after: seq<Item>,
                                             prev: seq<byte>)
    requires Setting(Flagged(rs), Ones(n), fo, to, after) && fo <= off < to <= n
    requires RightFrom(Flagged(rs), Ones(n), fo, to, off, after, prev) && HeadMatches(HeadOf(prev), Ones(n), off)
    ensures BoundariesOk(HeadRepaired, rs, off, to)
    decreases Max(0, to - off)
  {
    hide RightFrom, Setting, HeadOf, HeadMatches, BodyOut, WholeFile, BoundaryOk, Following;
    var b := off + BUFFER_LEN;
    if b >= to {
    } else {
      var out := RightBody(Flagged(rs), Ones(n), fo, to, off, after, prev);
      BoundaryReached(n, rs, fo, to, off, after, prev, out);
      HeadOfMatches(Ones(n)[off..b], Ones(n), 0, b, Ones(n));
      BoundariesReached(n, rs, fo, to, b, after, Ones(n)[off..b]);
    }
  }

  lemma BoundaryReached(n: nat, rs: seq<Range>, fo: nat, to: nat, off: nat, after: seq<Item>, prev: seq<byte>,
                        out: seq<byte>)
    requires Setting(Flagged(rs), Ones(n), fo, to, after) && off + BUFFER_LEN < to
             && HeadMatches(HeadOf(prev), Ones(n), off)
    requires out == BodyOut(Flagged(rs), Ones(n), off, to, prev, Following(HeadRepaired, Ones(n), off, to, after))
    requires out == WholeFile(Flag, Ones(n), rs)[off..off + BUFFER_LEN]
    ensures BoundaryOk(HeadRepaired, rs, off + BUFFER_LEN, to)
  {
    hide DecryptWindow, HeadOf, TailOf, HeadMatches, WholeFile, Flag;
    var b := off + BUFFER_LEN;
    forall r | r in rs && CutBy(r, b) ensures BLOCK_SIZE - Cut(b, r) <= to - b {
      if BLOCK_SIZE - Cut(b, r) > to - b {
        var m :| 0 <= m < |rs| && rs[m] == r;
        assert out[b - 1 - off] == WholeFile(Flag, Ones(n), rs)[b - 1];
        FollowingLast(n, off, to, after);
        FlaggedAt(n, rs, r, b);
        ShortTailShows(n, rs, to, off, b, prev, m);
        assert false;
      }
    }
  }

  lemma FollowingLast(n: nat, off: nat, to: nat, after: seq<Item>)
    requires off + BUFFER_LEN < to <= n && to - (off + BUFFER_LEN) < BLOCK_SIZE
    ensures Following(HeadRepaired, Ones(n), off, to, after) == Ones(n)[off + BUFFER_LEN..to]
  {
  }

  lemma FlaggedAt(n: nat, rs: seq<Range>, r: Range, b: nat)
    requires WellPlaced(rs, n) && r in rs && CutBy(r, b)
    ensures b <= n && WholeFile(Flag, Ones(n), rs)[b - 1] == 2
  {
    hide WholeFile, Flag;
    BlockOfLast(r, b);
    WholeFileAt(Flag, Ones(n), rs, b - 1);
    PlainCases(Flag, Ones(n), rs, b - 1);
    FlaggedByte(n, r, b - 1);
  }

  lemma RightDeliveryReaches(file: DvdbndFile, rs: seq<Range>, w: nat, fo: nat, l: nat)
    requires IsWindowSize(w) && 0 < l && fo + l <= file.len && WellPlaced(rs, file.len)
    requires DeliversPlain(file, Ones(file.dataOffset + file.len), Flagged(rs), w, fo, l)
    ensures RightLayout(HeadRepaired, rs, fo, l)
  {
    hide FromBody, RawDelivery, WholeFile, Clipped, HeadOf, HeadMatches, IsAfter;
    var bdt := Ones(file.dataOffset + file.len);
    assert FileBytes(file, bdt) == Ones(file.len);
    PlacedIsUsable(Flagged(rs), file.len);
    var after, prev := RawDeliveryFromBodies(file, bdt, Flagged(rs), w, fo, l);
    BoundariesReached(file.len, rs, fo, fo + l, fo, after, prev);
  }
}

/** Reads of whole requests: what `read_file` delivers, and exactly when it is the right data. */
module ReadTheorem {
  import opened Bytes
  import opened BlockCipher
  import opened WindowDecryptor
  import opened WindowTheorem
  import opened CiphertextRing
  import opened AlignedStream
  import opened Mount

  /** The chunks are the octets `from..to` of `plain`: in order, without gap or overlap, none empty
      and none longer than a buffer. */
  predicate Covers(chunks: seq<Chunk>, plain: seq<byte>, from: nat, to: nat)
    requires from <= to <= |plain|
  {
    if chunks == [] then from == to
    else
      var c := chunks[0];
      && c.offset == from && 0 < |c.bytes| <= BUFFER_LEN && from + |c.bytes| <= to
      && c.bytes == plain[from..from + |c.bytes|]
      && Covers(chunks[1..], plain, from + |c.bytes|, to)
  }

  function Concat(chunks: seq<Chunk>): seq<byte> {
    if chunks == [] then [] else chunks[0].bytes + Concat(chunks[1..])
  }

  lemma {:induction false} CoversConcat(chunks: seq<Chunk>, plain: seq<byte>, from: nat, to: nat)
    requires from <= to <= |plain| && Covers(chunks, plain, from, to)
    ensures Concat(chunks) == plain[from..to]
  {
    if chunks == [] {
    } else {
      var mid := from + |chunks[0].bytes|;
      CoversConcat(chunks[1..], plain, mid, to);
      hide Covers, Concat;
      assert plain[from..to] == plain[from..mid] + plain[mid..to];
    }
  }

  /** Chunks that already fit the request pass the closure unchanged. */
  lemma {:induction false} ClipKeepsCover(chunks: seq<Chunk>, plain: seq<byte>, from: nat, to: nat)
    requires from <= to <= |plain| && to < U32_LIMIT && Covers(chunks, plain, from, to)
    ensures ClipAll(chunks, to) == chunks
  {
    if chunks == [] {
    } else {
      var c := chunks[0];
      assert c.bytes[..|c.bytes|] == c.bytes;
      assert Clip(c, to) == Some(c);
      ClipKeepsCover(chunks[1..], plain, from + |chunks[0].bytes|, to);
    }
  }

  /** The body buffers of a request, by offset in the file. */
  function Bodies(file: seq<byte>, from: nat, to: nat): seq<Item>
    requires to <= |file|
    decreases Max(0, to - from)
  {
    if from >= to then []
    else
      var end := Min(from + BUFFER_LEN, to);
      [Buffer(file[from..end], from)] + Bodies(file, from + BUFFER_LEN, to)
  }

  lemma {:induction false} ReadBodies(bdt: seq<byte>, pos: nat, end: nat, fileStart: nat, file: seq<byte>)
    requires fileStart <= pos && fileStart + |file| <= |bdt| && file == bdt[fileStart..fileStart + |file|]
    requires end <= fileStart + |file| && |file| < U32_LIMIT && end >= fileStart
    ensures ReadAll(bdt, BodyPlan(pos, end), fileStart) == Bodies(file, pos - fileStart, end - fileStart)
    decreases Max(0, end - pos)
  {
    if pos >= end {
    } else {
      var len := Min(end - pos, BUFFER_LEN);
      SliceOfSlice(bdt, fileStart, fileStart + |file|, pos - fileStart, pos - fileStart + len);
      ReadBodies(bdt, pos + BUFFER_LEN, end, fileStart, file);
    }
  }

  lemma {:induction false} ForwardBodies(file: seq<byte>, from: nat, to: nat)
    requires from <= to <= |file|
    ensures Forward(Bodies(file, from, to)).end == Done
    ensures Covers(Forward(Bodies(file, from, to)).chunks, file, from, to)
    decreases Max(0, to - from)
  {
    if from >= to {
    } else {
      var items := Bodies(file, from, to);
      var end := Min(from + BUFFER_LEN, to);
      assert items[1..] == Bodies(file, from + BUFFER_LEN, to);
      if from + BUFFER_LEN <= to {
        ForwardBodies(file, from + BUFFER_LEN, to);
      }
    }
  }

  /** The octets of an entry in its archive. */
  function FileBytes(file: DvdbndFile, bdt: seq<byte>): (bytes: seq<byte>)
    requires file.dataOffset + file.len <= |bdt|
    ensures |bytes| == file.len
  {
    bdt[file.dataOffset..file.dataOffset + file.len]
  }

  lemma StreamIsBodies(file: DvdbndFile, bdt: seq<byte>, fo: nat, l: nat)
    requires file.dataOffset + file.len <= |bdt| && fo + l <= file.len
    ensures StreamRead(bdt, file.dataOffset + fo, l, file.dataOffset, file.len)
            == Bodies(FileBytes(file, bdt), fo, fo + l)
  {
    ReadBodies(bdt, file.dataOffset + fo, file.dataOffset + fo + l, file.dataOffset, FileBytes(file, bdt));
  }

  lemma UnencryptedSlice(file: DvdbndFile, bdt: seq<byte>, fo: nat, l: nat)
    requires file.dataOffset + file.len <= |bdt| && fo + l <= file.len
    ensures UnencryptedSpec(file, bdt, fo, l).end == Done
    ensures Covers(UnencryptedSpec(file, bdt, fo, l).chunks, FileBytes(file, bdt), fo, fo + l)
  {
    hide StreamRead, Bodies, Forward;
    var plain := FileBytes(file, bdt);
    StreamIsBodies(file, bdt, fo, l);
    ForwardBodies(plain, fo, fo + l);
    ClipKeepsCover(Forward(Bodies(plain, fo, fo + l)).chunks, plain, fo, fo + l);
  }

  /** The unencrypted path: for every accepted entry inside its archive, the requested octets clipped
      to the unpadded file, in order, in buffers of at most 32768. */
  lemma UnencryptedRead(file: DvdbndFile, bdt: seq<byte>, w: nat, offset: u64, len: u32)
    requires w > 0 && Readable(file, w) && file.dataOffset + file.len <= |bdt| && file.encryption.None?
    ensures var n := if file.unpadded == 0 then file.len else file.unpadded;
            var fo, to := Min(offset, n), Min(offset + len, n);
            var d := ReadSpec(file, bdt, None, w, offset, len);
            d.end == Done && Covers(d.chunks, FileBytes(file, bdt), fo, to)
  {
    UnencryptedSlice(file, bdt, ClippedOffset(file, offset), ClippedLen(file, offset, len));
  }

  // ---- the encrypted path ----

  /** What surrounds the body buffers: at most one buffer before the request, at most one after it. */
  predicate IsBefore(items: seq<Item>, file: seq<byte>, from: nat)
    requires from <= |file|
  {
    if items == [] then from == 0
    else |items| == 1 && items[0].Buffer? && items[0].offset < from && HeadMatches(HeadOf(items[0].bytes), file, from)
  }

  predicate IsAfter(items: seq<Item>, file: seq<byte>, to: nat)
    requires to <= |file|
  {
    if items == [] then to == |file|
    else
      && |items| == 1 && items[0].Buffer? && items[0].offset == to
      && TailMatches(TailOf(items[0].bytes), file, to, Min(BLOCK_SIZE, |file| - to))
  }

  lemma HeadOfMatches(prev: seq<byte>, bdt: seq<byte>, fileStart: nat, fo: nat, file: seq<byte>)
    requires fo <= |file| && fileStart + |file| <= |bdt| && file == bdt[fileStart..fileStart + |file|]
    requires Min(BLOCK_SIZE, fo) <= |prev| <= fileStart + fo && prev == bdt[fileStart + fo - |prev|..fileStart + fo]
    ensures HeadMatches(HeadOf(prev), file, fo)
  {
    var head := HeadOf(prev);
    forall j | Max(0, BLOCK_SIZE - fo) <= j < BLOCK_SIZE ensures head[j] == file[fo - BLOCK_SIZE + j] {
      assert head[j] == prev[|prev| - BLOCK_SIZE + j];
    }
  }

  lemma HeadItemsMatch(bdt: seq<byte>, w: nat, fileStart: nat, fo: nat, len: nat, file: seq<byte>)
    requires BLOCK_SIZE <= w && fo <= |file| && fileStart + |file| <= |bdt|
    requires file == bdt[fileStart..fileStart + |file|]
    ensures IsBefore(HeadItems(bdt, w, fileStart + fo, len, fileStart), file, fo)
  {
    hide HeadOf, HeadMatches;
    var items := HeadItems(bdt, w, fileStart + fo, len, fileStart);
    if items != [] {
      HeadOfMatches(items[0].bytes, bdt, fileStart, fo, file);
    }
  }

  lemma TailItemsMatch(bdt: seq<byte>, w: nat, fileStart: nat, fo: nat, len: nat, file: seq<byte>, fileEnd: nat)
    requires BLOCK_SIZE <= w && fo + len <= |file| && fileEnd == fileStart + |file| <= |bdt|
    requires file == bdt[fileStart..fileStart + |file|]
    ensures IsAfter(TailItems(bdt, w, fileStart + fo, len, fileStart, fileEnd), file, fo + len)
  {
    var items, end := TailItems(bdt, w, fileStart + fo, len, fileStart, fileEnd), fileStart + fo + len;
    if items != [] {
      var tail := items[0].bytes;
      assert tail == bdt[end..end + |tail|];
      assert |tail| >= Min(BLOCK_SIZE, fileEnd - end);
    }
  }

  lemma OneBody(file: seq<byte>, bdt: seq<byte>, fileStart: nat, fo: nat, l: nat)
    requires fileStart + |file| <= |bdt| && file == bdt[fileStart..fileStart + |file|] && fo + l <= |file|
             && 0 < l <= BUFFER_LEN
    ensures Bodies(file, fo, fo + l) == [Buffer(bdt[fileStart + fo..fileStart + fo + l], fo)]
  {
    SliceOfSlice(bdt, fileStart, fileStart + |file|, fo, fo + l);
    assert Bodies(file, fo + BUFFER_LEN, fo + l) == [];
  }

  lemma StreamShape(bdt: seq<byte>, w: nat, fileStart: nat, fo: nat, l: nat, plain: seq<byte>, n: nat)
    requires 0 < w && 0 < l && fo + l <= n == |plain| < U32_LIMIT && w < U32_LIMIT
    requires fileStart + n <= |bdt| && plain == bdt[fileStart..fileStart + n]
    ensures StreamWindows(bdt, w, fileStart + fo, l, fileStart, n)
            == HeadItems(bdt, w, fileStart + fo, l, fileStart) + Bodies(plain, fo, fo + l)
               + TailItems(bdt, w, fileStart + fo, l, fileStart, fileStart + n)
  {
    hide Bodies, ReadAll, BodyPlan, OneWindow;
    if FitsOneWindow(w, fileStart + fo, l) {
      OneWindowItems(bdt, w, fileStart + fo, l, fileStart, fileStart + n);
      OneBody(plain, bdt, fileStart, fo, l);
    } else {
      ManyBufferItems(bdt, w, fileStart + fo, l, fileStart, n);
      ReadBodies(bdt, fileStart + fo, fileStart + fo + l, fileStart, plain);
    }
  }

  /** The items of an encrypted request: context, bodies, context. */
  lemma WindowsShape(file: DvdbndFile, bdt: seq<byte>, w: nat, fo: nat, l: nat)
      returns (before: seq<Item>, after: seq<Item>)
    requires IsWindowSize(w) && 0 < l && file.dataOffset + file.len <= |bdt| && fo + l <= file.len
    ensures StreamWindows(bdt, w, file.dataOffset + fo, l, file.dataOffset, file.len)
            == before + Bodies(FileBytes(file, bdt), fo, fo + l) + after
    ensures IsBefore(before, FileBytes(file, bdt), fo) && IsAfter(after, FileBytes(file, bdt), fo + l)
  {
    hide StreamWindows, HeadItems, TailItems, Bodies, IsBefore, IsAfter;
    var start := file.dataOffset;
    before, after := HeadItems(bdt, w, start + fo, l, start), TailItems(bdt, w, start + fo, l, start, start + file.len);
    StreamShape(bdt, w, start, fo, l, FileBytes(file, bdt), file.len);
    HeadItemsMatch(bdt, w, start, fo, l, FileBytes(file, bdt));
    TailItemsMatch(bdt, w, start, fo, l, FileBytes(file, bdt), start + file.len);
  }

  lemma {:induction false} BytesShift(pre: seq<Item>, rest: seq<Item>, k: nat)
    requires k <= |rest|
    ensures BytesFrom(pre + rest, |pre| + k) == BytesFrom(rest, k)
    decreases |rest| - k
  {
    if k == |rest| {
    } else {
      assert (pre + rest)[|pre| + k] == rest[k];
      BytesShift(pre, rest, k + 1);
    }
  }

  lemma NextShift(keyed: Option<Keyed>, pre: seq<Item>, rest: seq<Item>, k: nat)
    requires k < |rest|
    ensures NextBytes(keyed, pre + rest, |pre| + k) == NextBytes(keyed, rest, k)
  {
    BytesShift(pre, rest, k + 1);
  }

  /** The loop does not look behind the current item's predecessor. */
  lemma {:induction false} DeliverShift(keyed: Option<Keyed>, start: nat, end: nat, pre: seq<Item>, rest: seq<Item>,
                                        k: nat, prev: seq<byte>)
    requires Usable(keyed) && k <= |rest|
    ensures DeliverFrom(keyed, start, end, pre + rest, |pre| + k, prev) == DeliverFrom(keyed, start, end, rest, k, prev)
    decreases |rest| - k
  {
    hide StepOf, NextBytes, Kept;
    var items := pre + rest;
    if k < |rest| && rest[k].Buffer? && (k + 1 < |rest| ==> rest[k + 1].Buffer?) {
      NextShift(keyed, pre, rest, k);
      assert items[|pre| + k] == rest[k];
      var (_, bytes) := StepOf(keyed, start, end, rest[k].offset, rest[k].bytes, prev, NextBytes(keyed, rest, k));
      DeliverShift(keyed, start, end, pre, rest, k + 1, Kept(keyed, rest[k].bytes, bytes));
      DeliverTurn(keyed, start, end, items, |pre| + k, prev, []);
      DeliverTurn(keyed, start, end, rest, k, prev, []);
    }
  }

  predicate AllBuffers(items: seq<Item>) {
    forall i :: 0 <= i < |items| ==> items[i].Buffer?
  }

  lemma {:induction false} BodiesAreBuffers(file: seq<byte>, from: nat, to: nat)
    requires to <= |file|
    ensures AllBuffers(Bodies(file, from, to))
    decreases Max(0, to - from)
  {
    if from >= to {
    } else {
      BodiesAreBuffers(file, from + BUFFER_LEN, to);
    }
  }

  /** What a body buffer at `off` becomes. */
  function BodyOut(k: Keyed, file: seq<byte>, off: nat, to: nat, prev: seq<byte>, next: seq<byte>): (out: seq<byte>)
    requires off < to <= |file| && SortedByEnd(k.ranges)
    ensures |out| == Min(off + BUFFER_LEN, to) - off
  {
    DecryptWindow(k.version, k.dec, off, file[off..Min(off + BUFFER_LEN, to)], HeadOf(prev), TailOf(next), k.ranges)
  }

  /** What the tail of the body buffer at `off` is taken from. */
  function Following(v: Version, file: seq<byte>, off: nat, to: nat, after: seq<Item>): seq<byte>
    requires off < to <= |file|
  {
    var rest := Bodies(file, off + BUFFER_LEN, to) + after;
    if v.FullyRepaired? then BytesFrom(rest, 0)
    else if rest != [] && rest[0].Buffer? then rest[0].bytes
    else []
  }

  /** The loop from the body buffer at `off` on. */
  function FromBody(k: Keyed, file: seq<byte>, fo: nat, to: nat, off: nat, after: seq<Item>, prev: seq<byte>): Delivery
    requires to <= |file| && Usable(Some(k))
  {
    DeliverFrom(Some(k), fo, to, Bodies(file, off, to) + after, 0, prev)
  }

  /** What the head of the next body buffer is taken from. */
  function HeadSource(k: Keyed, file: seq<byte>, off: nat, to: nat, out: seq<byte>): seq<byte>
    requires off < to <= |file|
  {
    Kept(Some(k), file[off..Min(off + BUFFER_LEN, to)], out)
  }

  /** One turn on a body buffer. */
  lemma BodyTurn(k: Keyed, file: seq<byte>, fo: nat, to: nat, off: nat, after: seq<Item>, prev: seq<byte>)
    requires fo <= off < to <= |file| && AllBuffers(after) && Usable(Some(k))
    ensures var out := BodyOut(k, file, off, to, prev, Following(k.version, file, off, to, after));
            FromBody(k, file, fo, to, off, after, prev)
            == Prepend([Chunk(out, off)],
                       FromBody(k, file, fo, to, off + BUFFER_LEN, after, HeadSource(k, file, off, to, out)))
  {
    hide HeadOf, TailOf, DecryptWindow, DeliverFrom, Kept, NextBytes, Following;
    var items, rest := Bodies(file, off, to) + after, Bodies(file, off + BUFFER_LEN, to) + after;
    var end := Min(off + BUFFER_LEN, to);
    var body := file[off..end];
    BodiesAreBuffers(file, off, to);
    BodiesAreBuffers(file, off + BUFFER_LEN, to);
    assert items == [Buffer(body, off)] + rest;
    FollowingIsNext(k, file, off, to, after, items, rest);
    assert WithoutOverread(body, off, to) == body;
    var out := BodyOut(k, file, off, to, prev, Following(k.version, file, off, to, after));
    DeliverTurn(Some(k), fo, to, items, 0, prev, []);
    PrependNothing(DeliverFrom(Some(k), fo, to, items, 0, prev));
    DeliverShift(Some(k), fo, to, [Buffer(body, off)], rest, 0, HeadSource(k, file, off, to, out));
    assert [] + [Chunk(out, off)] == [Chunk(out, off)];
  }

  lemma FollowingIsNext(k: Keyed, file: seq<byte>, off: nat, to: nat, after: seq<Item>, items: seq<Item>,
                        rest: seq<Item>)
    requires off < to <= |file| && rest == Bodies(file, off + BUFFER_LEN, to) + after && AllBuffers(rest)
    requires items == [Buffer(file[off..Min(off + BUFFER_LEN, to)], off)] + rest
    ensures NextBytes(Some(k), items, 0) == Following(k.version, file, off, to, after)
    ensures items[0] == Buffer(file[off..Min(off + BUFFER_LEN, to)], off)
    ensures 1 < |items| ==> items[1].Buffer?
  {
    BytesShift([items[0]], rest, 0);
  }

  /** A boundary between two body buffers does no harm: as written it cuts no block; with the repaired head,
      a block cut there ends within the next buffer, of which the request has `to - b` octets. */
  predicate BoundaryOk(v: Version, rs: seq<Range>, b: nat, to: nat) {
    match v
    case AsWritten => !CutsBlock(rs, b)
    case HeadRepaired => forall r :: r in rs && CutBy(r, b) ==> BLOCK_SIZE - Cut(b, r) <= to - b
    case FullyRepaired => true
  }

  predicate BoundariesOk(v: Version, rs: seq<Range>, off: nat, to: nat)
    decreases Max(0, to - off)
  {
    off + BUFFER_LEN < to ==> BoundaryOk(v, rs, off + BUFFER_LEN, to) && BoundariesOk(v, rs, off + BUFFER_LEN, to)
  }

  /** Where the encrypted read of `fo..fo + l` is right. As written: no buffer boundary inside the request
      cuts a block, and a block cut at its start is the last of its range in the first buffer. */
  predicate RightLayout(v: Version, rs: seq<Range>, fo: nat, l: nat) {
    StartsCleanly(v, rs, fo, Min(l, BUFFER_LEN)) && BoundariesOk(v, rs, fo, fo + l)
  }

  /** With the second repair every layout is right. */
  lemma FullyRepairedIsRight(rs: seq<Range>, fo: nat, l: nat)
    ensures RightLayout(FullyRepaired, rs, fo, l)
  {
    FullyRepairedBoundaries(rs, fo, fo + l);
  }

  lemma {:induction false} FullyRepairedBoundaries(rs: seq<Range>, off: nat, to: nat)
    ensures BoundariesOk(FullyRepaired, rs, off, to)
    decreases Max(0, to - off)
  {
    if off + BUFFER_LEN >= to {
    } else {
      FullyRepairedBoundaries(rs, off + BUFFER_LEN, to);
    }
  }

  lemma {:induction false} AfterIsSkipped(keyed: Option<Keyed>, file: seq<byte>, fo: nat, to: nat, after: seq<Item>,
                                          prev: seq<byte>)
    requires Usable(keyed) && to <= |file| && IsAfter(after, file, to)
    ensures DeliverFrom(keyed, fo, to, after, 0, prev) == Delivery([], Done)
  {
    if after != [] {
      DeliverTurn(keyed, fo, to, after, 0, prev, []);
    }
  }

  lemma TailOfConcat(x: seq<byte>, y: seq<byte>, j: nat)
    requires j < BLOCK_SIZE
    ensures TailOf(x + y)[j] == if j < |x| then x[j] else TailOf(y)[j - |x|]
  {
  }

  lemma TailOfLong(x: seq<byte>, y: seq<byte>, file: seq<byte>, p: nat, n: nat)
    requires p + n <= |file| && n <= BLOCK_SIZE && n <= |x| && p + |x| <= |file| && x == file[p..p + |x|]
    ensures TailMatches(TailOf(x + y), file, p, n)
  {
    hide TailOf;
    forall j | 0 <= j < n ensures TailOf(x + y)[j] == file[p + j] { TailOfConcat(x, y, j); }
  }

  lemma TailOfShort(x: seq<byte>, y: seq<byte>, file: seq<byte>, p: nat, n: nat)
    requires |x| <= n <= BLOCK_SIZE && p + n <= |file| && x == file[p..p + |x|]
    requires TailMatches(TailOf(y), file, p + |x|, n - |x|)
    ensures TailMatches(TailOf(x + y), file, p, n)
  {
    hide TailOf;
    forall j | 0 <= j < n ensures TailOf(x + y)[j] == file[p + j] { TailOfConcat(x, y, j); }
  }

  lemma AfterMatches(file: seq<byte>, to: nat, after: seq<Item>)
    requires to <= |file| && IsAfter(after, file, to)
    ensures TailMatches(TailOf(BytesFrom(after, 0)), file, to, Min(BLOCK_SIZE, |file| - to))
    ensures after != [] ==>
              && after[0].Buffer?
              && TailMatches(TailOf(after[0].bytes), file, to, Min(BLOCK_SIZE, |file| - to))
    ensures after == [] ==> to == |file|
  {
    hide TailOf;
    if after != [] {
      assert BytesFrom(after, 1) == [];
      assert after[0].bytes + [] == after[0].bytes;
    }
  }

  /** Everything that follows `off` in the stream begins with the file's next octets. */
  lemma AllThatFollows(file: seq<byte>, off: nat, to: nat, after: seq<Item>)
    requires off <= to <= |file| && IsAfter(after, file, to)
    ensures TailMatches(TailOf(BytesFrom(Bodies(file, off, to) + after, 0)), file, off, Min(BLOCK_SIZE, |file| - off))
  {
    hide IsAfter, TailOf, TailMatches, Bodies, BytesFrom;
    AfterMatches(file, to, after);
    NothingAfterBodies(file, off, to, after);
    if off < to {
      var body, n := file[off..Min(off + BUFFER_LEN, to)], Min(BLOCK_SIZE, |file| - off);
      var rest := BytesFrom(Bodies(file, off + BUFFER_LEN, to) + after, 0);
      BytesOfBodies(file, off, to, after);
      if n <= |body| {
        TailOfLong(body, rest, file, off, n);
      } else {
        NothingAfterBodies(file, off + BUFFER_LEN, to, after);
        TailShorter(TailOf(rest), file, to, Min(BLOCK_SIZE, |file| - to), n - |body|);
        TailOfShort(body, rest, file, off, n);
      }
    }
  }

  lemma NothingAfterBodies(file: seq<byte>, off: nat, to: nat, after: seq<Item>)
    requires to <= |file|
    ensures off >= to ==> Bodies(file, off, to) + after == after
  {
  }

  lemma BytesOfBodies(file: seq<byte>, off: nat, to: nat, after: seq<Item>)
    requires off < to <= |file|
    ensures BytesFrom(Bodies(file, off, to) + after, 0)
            == file[off..Min(off + BUFFER_LEN, to)] + BytesFrom(Bodies(file, off + BUFFER_LEN, to) + after, 0)
  {
    var first, rest := Buffer(file[off..Min(off + BUFFER_LEN, to)], off), Bodies(file, off + BUFFER_LEN, to) + after;
    assert Bodies(file, off, to) + after == [first] + rest;
    BytesShift([first], rest, 0);
  }

  lemma TailShorter(tail: Block, file: seq<byte>, p: nat, n: nat, m: nat)
    requires TailMatches(tail, file, p, n) && m <= n
    ensures TailMatches(tail, file, p, m)
  {
  }

  /** Octets of the file from `p` on are enough for a cut block. */
  lemma EnoughServes(tail: Block, file: seq<byte>, p: nat, r: Range)
    requires p <= |file| && r.End() <= |file| && TailMatches(tail, file, p, Min(BLOCK_SIZE, |file| - p))
    ensures TailServes(tail, file, p, r)
  {
    if CutBy(r, p) { CutBlockInRange(r, p); }
  }

  /** The tail a body buffer gets serves wherever it is needed. */
  lemma FollowingServes(v: Version, file: seq<byte>, off: nat, to: nat, after: seq<Item>, rs: seq<Range>, r: Range)
    requires off < to <= |file| && IsAfter(after, file, to) && r in rs && r.End() <= |file|
    requires BoundariesOk(v, rs, off, to)
    ensures TailServes(TailOf(Following(v, file, off, to, after)), file, Min(off + BUFFER_LEN, to), r)
  {
    hide TailOf, TailServes, TailMatches, IsAfter, BytesFrom;
    var b, rest := off + BUFFER_LEN, Bodies(file, off + BUFFER_LEN, to) + after;
    AfterMatches(file, to, after);
    if b >= to {
      assert rest == after;
      LastServes(v, file, off, to, after, r);
    } else if v.FullyRepaired? {
      AllThatFollows(file, b, to, after);
      EnoughServes(TailOf(BytesFrom(rest, 0)), file, b, r);
    } else {
      var next := file[b..Min(b + BUFFER_LEN, to)];
      assert rest[0] == Buffer(next, b);
      NextServes(v, file, b, to, next, rs, r);
    }
  }

  lemma LastServes(v: Version, file: seq<byte>, off: nat, to: nat, after: seq<Item>, r: Range)
    requires off < to <= |file| && to <= off + BUFFER_LEN && IsAfter(after, file, to) && r.End() <= |file|
    ensures TailServes(TailOf(Following(v, file, off, to, after)), file, to, r)
  {
    hide TailOf, TailMatches, IsAfter, BytesFrom;
    AfterMatches(file, to, after);
    assert Bodies(file, off + BUFFER_LEN, to) + after == after;
    if after == [] && !v.FullyRepaired? {
      assert !CutBy(r, to);
    } else {
      EnoughServes(TailOf(Following(v, file, off, to, after)), file, to, r);
    }
  }

  lemma NextServes(v: Version, file: seq<byte>, b: nat, to: nat, next: seq<byte>, rs: seq<Range>, r: Range)
    requires b < to <= |file| && next == file[b..Min(b + BUFFER_LEN, to)] && r in rs && r.End() <= |file|
    requires !v.FullyRepaired? && BoundaryOk(v, rs, b, to)
    ensures TailServes(TailOf(next), file, b, r)
  {
    hide TailOf, TailMatches;
    if CutBy(r, b) {
      assert v.HeadRepaired?;
      assert next + [] == next;
      TailOfLong(next, [], file, b, BLOCK_SIZE - Cut(b, r));
    }
  }

  lemma BodyOutIsPlain(k: Keyed, file: seq<byte>, off: nat, to: nat, after: seq<Item>, prev: seq<byte>)
    requires off < to <= |file| && IsAfter(after, file, to) && WellPlaced(k.ranges, |file|)
    requires CutsBlock(k.ranges, off) ==> HeadMatches(HeadOf(prev), file, off)
    requires StartsCleanly(k.version, k.ranges, off, Min(to - off, BUFFER_LEN))
             && BoundariesOk(k.version, k.ranges, off, to)
    ensures BodyOut(k, file, off, to, prev, Following(k.version, file, off, to, after))
            == WholeFile(k.dec, file, k.ranges)[off..Min(off + BUFFER_LEN, to)]
  {
    hide WholeFile, DecryptWindow, TailOf, HeadOf, Following, StartsCleanly, BoundariesOk, IsAfter, TailServes,
        HeadMatches, CutsBlock;
    var end, tail := Min(off + BUFFER_LEN, to), TailOf(Following(k.version, file, off, to, after));
    forall r | r in k.ranges ensures TailServes(tail, file, end, r) {
      FollowingServes(k.version, file, off, to, after, k.ranges, r);
    }
    WindowIsWholeFileSlice(k.version, k.dec, file, off, file[off..end], HeadOf(prev), tail, k.ranges);
  }

  lemma UncutStartsCleanly(v: Version, rs: seq<Range>, off: nat, len: nat)
    requires !v.AsWritten? || !CutsBlock(rs, off)
    ensures StartsCleanly(v, rs, off, len)
  {
  }

  lemma CoverOneMore(c: Chunk, d: Delivery, plain: seq<byte>, off: nat, to: nat)
    requires off < to <= |plain| && c.offset == off && c.bytes == plain[off..Min(off + BUFFER_LEN, to)]
    requires d.end == Done && Covers(d.chunks, plain, Min(off + BUFFER_LEN, to), to)
    ensures Prepend([c], d).end == Done && Covers(Prepend([c], d).chunks, plain, off, to)
  {
    assert Prepend([c], d).chunks[1..] == d.chunks;
  }

  /** The premises of a right body buffer at `off`, if there is one. */
  predicate ReadyAt(k: Keyed, file: seq<byte>, off: nat, to: nat, prev: seq<byte>)
    requires to <= |file|
  {
    off < to ==>
      && (CutsBlock(k.ranges, off) ==> HeadMatches(HeadOf(prev), file, off))
      && StartsCleanly(k.version, k.ranges, off, Min(to - off, BUFFER_LEN))
          && BoundariesOk(k.version, k.ranges, off, to)
  }

  lemma NextIsReady(k: Keyed, file: seq<byte>, off: nat, to: nat, prev: seq<byte>, out: seq<byte>)
    requires off < to <= |file| && ReadyAt(k, file, off, to, prev)
    ensures ReadyAt(k, file, off + BUFFER_LEN, to, HeadSource(k, file, off, to, out))
  {
    hide HeadOf, HeadMatches;
    var b := off + BUFFER_LEN;
    if b < to {
      UncutStartsCleanly(k.version, k.ranges, b, Min(to - b, BUFFER_LEN));
      if !k.version.AsWritten? { HeadOfMatches(file[off..b], file, 0, b, file); }
    }
  }

  predicate DoneAndCovers(d: Delivery, plain: seq<byte>, from: nat, to: nat)
    requires from <= to <= |plain|
  {
    d.end == Done && Covers(d.chunks, plain, from, to)
  }

  lemma BodyStep(k: Keyed, file: seq<byte>, fo: nat, to: nat, off: nat, after: seq<Item>, prev: seq<byte>)
      returns (out: seq<byte>)
    requires fo <= off < to <= |file| && Usable(Some(k)) && IsAfter(after, file, to) && WellPlaced(k.ranges, |file|)
    requires ReadyAt(k, file, off, to, prev)
    ensures out == WholeFile(k.dec, file, k.ranges)[off..Min(off + BUFFER_LEN, to)]
    ensures FromBody(k, file, fo, to, off, after, prev)
            == Prepend([Chunk(out, off)],
                       FromBody(k, file, fo, to, off + BUFFER_LEN, after, HeadSource(k, file, off, to, out)))
  {
    hide WholeFile, BodyOut, FromBody, HeadSource;
    out := BodyOut(k, file, off, to, prev, Following(k.version, file, off, to, after));
    BodyOutIsPlain(k, file, off, to, after, prev);
    BodyTurn(k, file, fo, to, off, after, prev);
  }

  lemma NoBodyLeft(k: Keyed, file: seq<byte>, fo: nat, to: nat, off: nat, after: seq<Item>, prev: seq<byte>)
    requires to <= off && to <= |file| && Usable(Some(k)) && IsAfter(after, file, to)
    ensures FromBody(k, file, fo, to, off, after, prev) == Delivery([], Done)
  {
    assert Bodies(file, off, to) + after == after;
    AfterIsSkipped(Some(k), file, fo, to, after, prev);
  }

  /** From a body buffer on, a right layout gives the plaintext. */
  lemma {:induction false} BodiesDelivered(k: Keyed, file: seq<byte>, fo: nat, to: nat, off: nat, after: seq<Item>,
                                           prev: seq<byte>)
    requires fo <= off && to <= |file| && Usable(Some(k)) && IsAfter(after, file, to) && WellPlaced(k.ranges, |file|)
    requires ReadyAt(k, file, off, to, prev)
    ensures DoneAndCovers(FromBody(k, file, fo, to, off, after, prev), WholeFile(k.dec, file, k.ranges), Min(off, to),
                          to)
    decreases Max(0, to - off)
  {
    hide WholeFile, BodyOut, FromBody, ReadyAt, IsAfter, Usable, HeadSource;
    if off >= to {
      NoBodyLeft(k, file, fo, to, off, after, prev);
    } else {
      var out := BodyStep(k, file, fo, to, off, after, prev);
      NextIsReady(k, file, off, to, prev, out);
      BodiesDelivered(k, file, fo, to, off + BUFFER_LEN, after, HeadSource(k, file, off, to, out));
      CoverOneMore(Chunk(out, off),
                   FromBody(k, file, fo, to, off + BUFFER_LEN, after, HeadSource(k, file, off, to, out)),
                   WholeFile(k.dec, file, k.ranges), off, to);
    }
  }

  lemma PrependNothing(d: Delivery)
    ensures Prepend([], d) == d
  {
  }

  /** The stream of an encrypted request, from its first item on. */
  lemma RequestDelivery(k: Keyed, file: seq<byte>, fo: nat, to: nat, before: seq<Item>, after: seq<Item>,
                        items: seq<Item>)
    returns (prev: seq<byte>)
    requires fo < to <= |file| && IsBefore(before, file, fo) && IsAfter(after, file, to) && Usable(Some(k))
    requires items == before + Bodies(file, fo, to) + after
    ensures HeadMatches(HeadOf(prev), file, fo)
    ensures Deliver(Some(k), fo, to, items) == FromBody(k, file, fo, to, fo, after, prev)
  {
    hide DeliverFrom;
    var rest := Bodies(file, fo, to) + after;
    BodiesAreBuffers(file, fo, to);
    assert items == before + rest;
    assert rest != [] && rest[0].Buffer?;
    if before == [] {
      prev := [];
      assert items == rest;
    } else {
      prev := before[0].bytes;
      SkipFirst(Some(k), fo, to, before, rest);
    }
  }

  lemma SkipFirst(keyed: Option<Keyed>, start: nat, end: nat, before: seq<Item>, rest: seq<Item>)
    requires Usable(keyed) && |before| == 1 && before[0].Buffer? && before[0].offset < start
    requires rest != [] && rest[0].Buffer?
    ensures Deliver(keyed, start, end, before + rest) == DeliverFrom(keyed, start, end, rest, 0, before[0].bytes)
  {
    var items, prev := before + rest, before[0].bytes;
    assert items[0] == before[0] && items[1] == rest[0];
    DeliverTurn(keyed, start, end, items, 0, [], []);
    PrependNothing(DeliverFrom(keyed, start, end, items, 0, []));
    PrependNothing(DeliverFrom(keyed, start, end, items, 1, prev));
    DeliverShift(keyed, start, end, before, rest, 0, prev);
  }

  lemma PlacedIsUsable(k: Keyed, n: u32)
    requires WellPlaced(k.ranges, n)
    ensures Usable(Some(k))
  {
  }

  /** What the loop gives the closure for an encrypted request. */
  function RawDelivery(file: DvdbndFile, bdt: seq<byte>, k: Keyed, w: nat, fo: nat, l: nat): Delivery
    requires w > 0 && fo + l <= file.len && Usable(Some(k))
  {
    Deliver(Some(k), fo, fo + l, StreamWindows(bdt, w, file.dataOffset + fo, l, file.dataOffset, file.len))
  }

  lemma RawDeliveryFromBodies(file: DvdbndFile, bdt: seq<byte>, k: Keyed, w: nat, fo: nat, l: nat)
    returns (after: seq<Item>, prev: seq<byte>)
    requires IsWindowSize(w) && 0 < l && fo + l <= file.len && file.dataOffset + file.len <= |bdt| && Usable(Some(k))
    ensures var bytes := FileBytes(file, bdt);
            && IsAfter(after, bytes, fo + l) && HeadMatches(HeadOf(prev), bytes, fo)
            && RawDelivery(file, bdt, k, w, fo, l) == FromBody(k, bytes, fo, fo + l, fo, after, prev)
  {
    hide StreamWindows, Deliver, FromBody;
    var before;
    before, after := WindowsShape(file, bdt, w, fo, l);
    var stream := StreamWindows(bdt, w, file.dataOffset + fo, l, file.dataOffset, file.len);
    prev := RequestDelivery(k, FileBytes(file, bdt), fo, fo + l, before, after, stream);
  }

  /** Right data: all requested octets of the whole-file decryption, in order, and no error. */
  predicate DeliversPlain(file: DvdbndFile, bdt: seq<byte>, k: Keyed, w: nat, fo: nat, l: nat)
    requires w > 0 && fo + l <= file.len && file.dataOffset + file.len <= |bdt| && WellPlaced(k.ranges, file.len)
  {
    PlacedIsUsable(k, file.len);
    DoneAndCovers(Clipped(RawDelivery(file, bdt, k, w, fo, l), fo + l),
                  WholeFile(k.dec, FileBytes(file, bdt), k.ranges), fo, fo + l)
  }

  lemma ClippedCover(d: Delivery, plain: seq<byte>, from: nat, to: nat)
    requires from <= to <= |plain| && to < U32_LIMIT && DoneAndCovers(d, plain, from, to)
    ensures Clipped(d, to) == d
  {
    ClipKeepsCover(d.chunks, plain, from, to);
  }

  lemma BodiesAllDelivered(k: Keyed, bytes: seq<byte>, fo: nat, to: nat, after: seq<Item>, prev: seq<byte>,
                           raw: Delivery)
    requires fo < to <= |bytes| < U32_LIMIT && IsAfter(after, bytes, to) && HeadMatches(HeadOf(prev), bytes, fo)
    requires WellPlaced(k.ranges, |bytes|) && RightLayout(k.version, k.ranges, fo, to - fo) && Usable(Some(k))
    requires raw == FromBody(k, bytes, fo, to, fo, after, prev)
    ensures DoneAndCovers(Clipped(raw, to), WholeFile(k.dec, bytes, k.ranges), fo, to)
  {
    hide FromBody, WholeFile;
    BodiesDelivered(k, bytes, fo, to, fo, after, prev);
    ClippedCover(raw, WholeFile(k.dec, bytes, k.ranges), fo, to);
  }

  /** The encrypted read is right on every right layout, whatever the archive, cipher and context. */
  lemma EncryptedReadIsPlain(file: DvdbndFile, bdt: seq<byte>, k: Keyed, w: nat, fo: nat, l: nat)
    requires IsWindowSize(w) && 0 < l && fo + l <= file.len && file.dataOffset + file.len <= |bdt|
    requires WellPlaced(k.ranges, file.len) && RightLayout(k.version, k.ranges, fo, l)
    ensures DeliversPlain(file, bdt, k, w, fo, l)
  {
    hide RightLayout, WholeFile, RawDelivery, FromBody, DoneAndCovers, WellPlaced;
    PlacedIsUsable(k, file.len);
    var after, prev := RawDeliveryFromBodies(file, bdt, k, w, fo, l);
    var bytes := FileBytes(file, bdt);
    assert |bytes| == file.len && fo + l - fo == l;
    BodiesAllDelivered(k, bytes, fo, fo + l, after, prev, RawDelivery(file, bdt, k, w, fo, l));
  }
}

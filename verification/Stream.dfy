/** How a read request is cut into buffers, and what reading them from an archive gives. */
module AlignedStream {
  import opened Bytes

  const BUFFER_LEN := 32768

  /** The window on either side of a request: one memory alignment unit, per platform. */
  predicate IsWindowSize(w: nat) { w == 64 || w == 512 }

  datatype IoError = InvalidInput | UnexpectedEof | BadEncryptionId | CallbackFailed

  /** A stream item: a buffer with its offset relative to the file, or a failed read. */
  datatype Item = Buffer(bytes: seq<byte>, offset: int) | Failure(error: IoError)

  datatype Piece = Piece(len: nat, pos: nat)

  /** Read `len` octets of the archive at `pos`; a read at the archive's end comes up short. */
  function Read(bdt: seq<byte>, p: Piece, fileStart: nat): Option<Item> {
    if p.len == 0 then None
    else if !(-(U64_LIMIT / 2) <= p.pos - fileStart < U64_LIMIT / 2) then Some(Failure(InvalidInput))
    else if p.pos + p.len > |bdt| then Some(Failure(UnexpectedEof))
    else Some(Buffer(bdt[p.pos..p.pos + p.len], p.pos - fileStart))
  }

  /** `filter_map` of the reads over a plan. */
  function ReadAll(bdt: seq<byte>, plan: seq<Piece>, fileStart: nat): seq<Item> {
    if plan == [] then []
    else
      var rest := ReadAll(bdt, plan[1..], fileStart);
      match Read(bdt, plan[0], fileStart)
      case None => rest
      case Some(item) => [item] + rest
  }

  /** `(pos..end).step_by(BUFFER_LEN)`. */
  function BodyPlan(pos: nat, end: nat): seq<Piece>
    decreases end - pos
  {
    if pos >= end then [] else [Piece(Min(end - pos, BUFFER_LEN), pos)] + BodyPlan(pos + BUFFER_LEN, end)
  }

  /** The bounds the source asserts. */
  predicate InBounds(start: nat, len: nat, fileStart: nat, fileLen: nat) {
    fileStart <= start && start + len <= fileStart + fileLen
  }

  function StreamRead(bdt: seq<byte>, start: nat, len: nat, fileStart: nat, fileLen: nat): seq<Item>
    requires InBounds(start, len, fileStart, fileLen)
  {
    ReadAll(bdt, BodyPlan(start, start + len), fileStart)
  }

  /** Whether one buffer holds the request with both its windows. */
  predicate FitsOneWindow(w: nat, start: nat, len: nat) {
    len <= BUFFER_LEN - 2 * w && start >= w
  }

  function OneWindow(bdt: seq<byte>, w: nat, start: nat, len: nat, fileStart: nat, fileEnd: nat): seq<Item>
    requires start >= w > 0 && start + len <= fileEnd
  {
    var pos := start - w;
    var end := Min(start + len + w, fileEnd);
    match Read(bdt, Piece(end - pos, pos), fileStart)
    case None => []
    case Some(Failure(e)) => [Failure(e)]
    case Some(Buffer(b, offset)) =>
      [Buffer(b[..w], offset), Buffer(b[w..w + len], offset + w), Buffer(b[w + len..], offset + w + len)]
  }

  /** The plan of a request that does not fit one window. */
  function WindowPlan(w: nat, start: nat, len: nat, fileStart: nat, fileLen: nat): seq<Piece>
    requires InBounds(start, len, fileStart, fileLen)
  {
    [HeadPiece(w, start, fileStart)] + BodyPlan(start, start + len) + [TailPiece(w, start + len, fileStart + fileLen)]
  }

  function HeadPiece(w: nat, start: nat, fileStart: nat): Piece
    requires fileStart <= start
  {
    var pos := Max(Max(0, start - w), fileStart);
    Piece(start - pos, pos)
  }

  function TailPiece(w: nat, end: nat, fileEnd: nat): Piece
    requires end <= fileEnd
  {
    Piece(Min(end + w, fileEnd) - end, end)
  }

  function StreamWindows(bdt: seq<byte>, w: nat, start: nat, len: nat, fileStart: nat, fileLen: nat): seq<Item>
    requires InBounds(start, len, fileStart, fileLen) && w > 0
  {
    if FitsOneWindow(w, start, len) then OneWindow(bdt, w, start, len, fileStart, fileStart + fileLen)
    else ReadAll(bdt, WindowPlan(w, start, len, fileStart, fileLen), fileStart)
  }

  lemma {:induction false} ReadAllConcat(bdt: seq<byte>, a: seq<Piece>, b: seq<Piece>, fileStart: nat)
    ensures ReadAll(bdt, a + b, fileStart) == ReadAll(bdt, a, fileStart) + ReadAll(bdt, b, fileStart)
  {
    if a == [] {
      assert a + b == b;
    } else {
      assert (a + b)[1..] == a[1..] + b;
      ReadAllConcat(bdt, a[1..], b, fileStart);
    }
  }

  /** No buffer reaches beyond its file. */
  predicate EndInFile(items: seq<Item>, fileLen: nat) {
    forall i :: 0 <= i < |items| && items[i].Buffer? ==> items[i].offset + |items[i].bytes| <= fileLen
  }

  lemma {:induction false} ReadAllEndInFile(bdt: seq<byte>, plan: seq<Piece>, fileStart: nat, fileLen: nat)
    requires forall p :: p in plan ==> p.pos + p.len <= fileStart + fileLen
    ensures EndInFile(ReadAll(bdt, plan, fileStart), fileLen)
  {
    if plan == [] {
    } else {
      assert plan[0] in plan;
      ReadAllEndInFile(bdt, plan[1..], fileStart, fileLen);
    }
  }

  lemma {:induction false} BodyPlanInFile(pos: nat, end: nat)
    ensures forall p :: p in BodyPlan(pos, end) ==> pos <= p.pos && 0 < p.len <= BUFFER_LEN && p.pos + p.len <= end
    decreases end - pos
  {
    if pos >= end {
    } else {
      BodyPlanInFile(pos + BUFFER_LEN, end);
    }
  }

  lemma WindowsEndInFile(bdt: seq<byte>, w: nat, start: nat, len: nat, fileStart: nat, fileLen: nat)
    requires InBounds(start, len, fileStart, fileLen) && w > 0
    ensures EndInFile(StreamWindows(bdt, w, start, len, fileStart, fileLen), fileLen)
  {
    var end, fileEnd := start + len, fileStart + fileLen;
    if !FitsOneWindow(w, start, len) {
      BodyPlanInFile(start, end);
      ReadAllEndInFile(bdt, WindowPlan(w, start, len, fileStart, fileLen), fileStart, fileLen);
    }
  }

  /** The buffers before and after the request: absent where empty, except around a single window. */
  function HeadItems(bdt: seq<byte>, w: nat, start: nat, len: nat, fileStart: nat): seq<Item>
    requires start <= |bdt| && fileStart <= start
  {
    var pos := if FitsOneWindow(w, start, len) then start - w else Max(Max(0, start - w), fileStart);
    if pos == start then [] else [Buffer(bdt[pos..start], pos - fileStart)]
  }

  function TailItems(bdt: seq<byte>, w: nat, start: nat, len: nat, fileStart: nat, fileEnd: nat): seq<Item>
    requires fileStart <= start && start + len <= fileEnd <= |bdt|
  {
    var end := start + len;
    var tailEnd := Min(end + w, fileEnd);
    if tailEnd == end && !FitsOneWindow(w, start, len) then [] else [Buffer(bdt[end..tailEnd], end - fileStart)]
  }

  lemma OneWindowItems(bdt: seq<byte>, w: nat, start: nat, len: nat, fileStart: nat, fileEnd: nat)
    requires 0 < w <= start && fileStart <= start && start + len <= fileEnd <= |bdt|
    requires fileEnd - fileStart < U32_LIMIT && w < U32_LIMIT
    requires FitsOneWindow(w, start, len)
    ensures OneWindow(bdt, w, start, len, fileStart, fileEnd)
            == HeadItems(bdt, w, start, len, fileStart) + [Buffer(bdt[start..start + len], start - fileStart)]
               + TailItems(bdt, w, start, len, fileStart, fileEnd)
  {
    var pos, end := start - w, Min(start + len + w, fileEnd);
    var b := bdt[pos..end];
    assert b[..w] == bdt[pos..start];
    SliceOfSlice(bdt, pos, end, w, w + len);
    assert b[w + len..] == bdt[start + len..end];
    assert Read(bdt, Piece(end - pos, pos), fileStart) == Some(Buffer(b, pos - fileStart));
  }

  lemma ReadOne(bdt: seq<byte>, p: Piece, fileStart: nat)
    requires p.pos + p.len <= |bdt| && -(U64_LIMIT / 2) <= p.pos - fileStart < U64_LIMIT / 2
    ensures ReadAll(bdt, [p], fileStart)
            == if p.len == 0 then [] else [Buffer(bdt[p.pos..p.pos + p.len], p.pos - fileStart)]
  {
    assert ReadAll(bdt, [p][1..], fileStart) == [];
  }

  lemma HeadRead(bdt: seq<byte>, w: nat, start: nat, len: nat, fileStart: nat)
    requires fileStart <= start <= |bdt| && start - fileStart < U32_LIMIT && !FitsOneWindow(w, start, len)
    ensures ReadAll(bdt, [HeadPiece(w, start, fileStart)], fileStart) == HeadItems(bdt, w, start, len, fileStart)
  {
    ReadOne(bdt, HeadPiece(w, start, fileStart), fileStart);
  }

  lemma TailRead(bdt: seq<byte>, w: nat, start: nat, len: nat, fileStart: nat, fileEnd: nat)
    requires fileStart <= start && start + len <= fileEnd <= |bdt| && fileEnd - fileStart < U32_LIMIT
    requires !FitsOneWindow(w, start, len)
    ensures ReadAll(bdt, [TailPiece(w, start + len, fileEnd)], fileStart)
            == TailItems(bdt, w, start, len, fileStart, fileEnd)
  {
    ReadOne(bdt, TailPiece(w, start + len, fileEnd), fileStart);
  }

  lemma PlanInThree(bdt: seq<byte>, head: Piece, body: seq<Piece>, tail: Piece, fileStart: nat)
    ensures ReadAll(bdt, [head] + body + [tail], fileStart)
            == ReadAll(bdt, [head], fileStart) + ReadAll(bdt, body, fileStart) + ReadAll(bdt, [tail], fileStart)
  {
    ReadAllConcat(bdt, [head] + body, [tail], fileStart);
    ReadAllConcat(bdt, [head], body, fileStart);
  }

  lemma ManyBufferItems(bdt: seq<byte>, w: nat, start: nat, len: nat, fileStart: nat, fileLen: nat)
    requires 0 < w && fileLen < U32_LIMIT && InBounds(start, len, fileStart, fileLen) && fileStart + fileLen <= |bdt|
    requires !FitsOneWindow(w, start, len)
    ensures StreamWindows(bdt, w, start, len, fileStart, fileLen)
            == HeadItems(bdt, w, start, len, fileStart) + ReadAll(bdt, BodyPlan(start, start + len), fileStart)
               + TailItems(bdt, w, start, len, fileStart, fileStart + fileLen)
  {
    hide ReadAll, BodyPlan, HeadPiece, TailPiece, HeadItems, TailItems;
    PlanInThree(bdt, HeadPiece(w, start, fileStart), BodyPlan(start, start + len),
                TailPiece(w, start + len, fileStart + fileLen), fileStart);
    HeadRead(bdt, w, start, len, fileStart);
    TailRead(bdt, w, start, len, fileStart, fileStart + fileLen);
  }

  // ---- the items of a request, octet by octet ----

  /** How many buffers of 32768 octets, the last perhaps shorter, `len` octets take. */
  function BodyCount(len: nat): nat { (len + 32767) / 32768 }

  /** The octets `start..end` in such buffers. */
  function BodyBuffers(bdt: seq<byte>, start: nat, end: nat, fileStart: nat): (items: seq<Item>)
    requires start <= end <= |bdt|
  {
    seq(BodyCount(end - start), k requires 0 <= k < BodyCount(end - start) =>
      Buffer(bdt[start + 32768 * k..Min(start + 32768 * (k + 1), end)], start + 32768 * k - fileStart))
  }

  lemma {:induction false} BodiesRead(bdt: seq<byte>, start: nat, end: nat, fileStart: nat)
    requires fileStart <= start <= end <= |bdt| && end - fileStart < U32_LIMIT
    ensures ReadAll(bdt, BodyPlan(start, end), fileStart) == BodyBuffers(bdt, start, end, fileStart)
    decreases end - start
  {
    if start == end {
    } else {
      var next := Min(start + 32768, end);
      var plan := BodyPlan(start, end);
      assert plan[0] == Piece(next - start, start) && plan[1..] == BodyPlan(start + 32768, end);
      if next == end {
        assert BodyPlan(start + 32768, end) == [];
        assert ReadAll(bdt, plan[1..], fileStart) == [];
        assert BodyCount(end - start) == 1;
      } else {
        BodiesRead(bdt, next, end, fileStart);
        NextBodies(bdt, start, end, fileStart);
      }
    }
  }

  lemma NextBodies(bdt: seq<byte>, start: nat, end: nat, fileStart: nat)
    requires start + 32768 < end <= |bdt|
    ensures BodyBuffers(bdt, start, end, fileStart)
            == [Buffer(bdt[start..start + 32768], start - fileStart)]
               + BodyBuffers(bdt, start + 32768, end, fileStart)
  {
    var all, rest := BodyBuffers(bdt, start, end, fileStart), BodyBuffers(bdt, start + 32768, end, fileStart);
    assert BodyCount(end - start) == 1 + BodyCount(end - (start + 32768));
    forall k | 0 <= k < |rest| ensures all[k + 1] == rest[k] {
      assert start + 32768 * (k + 1) == start + 32768 + 32768 * k;
    }
  }

  /** Where the request with its two windows fits 32768 octets, and a window lies in front of it, it is read at once
      and split in three. Otherwise each part is read on its own, the windows no further than the file, and
      windows without octets are left out. */
  lemma WindowItems(bdt: seq<byte>, w: nat, start: nat, len: nat, fileStart: nat, fileLen: nat)
    requires (w == 64 || w == 512) && fileLen < 0x1_0000_0000
    requires fileStart <= start && start + len <= fileStart + fileLen <= |bdt|
    ensures var end, fileEnd, items := start + len, fileStart + fileLen,
                                       StreamWindows(bdt, w, start, len, fileStart, fileLen);
            var tail := Buffer(bdt[end..Min(end + w, fileEnd)], end - fileStart);
            if w + len + w <= 32768 && w <= start then
              items == [Buffer(bdt[start - w..start], start - w - fileStart),
                        Buffer(bdt[start..end], start - fileStart),
                        tail]
            else
              items == (if start == fileStart then []
                        else [Buffer(bdt[Max(start - w, fileStart)..start], Max(start - w, fileStart) - fileStart)])
                       + BodyBuffers(bdt, start, end, fileStart)
                       + (if end == fileEnd then [] else [tail])
  {
    hide ReadAll, BodyPlan, BodyBuffers, OneWindow;
    if FitsOneWindow(w, start, len) {
      OneWindowItems(bdt, w, start, len, fileStart, fileStart + fileLen);
    } else {
      ManyBufferItems(bdt, w, start, len, fileStart, fileLen);
      BodiesRead(bdt, start, start + len, fileStart);
    }
  }
}

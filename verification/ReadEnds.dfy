/** How encrypted reads end: in success, in the failure of a read beyond the archive's end, at an unknown id,
    or at a call of the callback that fails. */
module ReadEnds {
  import opened Bytes
  import opened BlockCipher
  import opened WindowDecryptor
  import opened AlignedStream
  import opened EncryptionRecords
  import opened Mount
  import opened ReadTheorem

  /** The first failed read among the items, or none. */
  function FirstFailure(items: seq<Item>): End {
    if items == [] then Done
    else if items[0].Failure? then Failed(items[0].error)
    else FirstFailure(items[1..])
  }

  /** With a known id, the loop ends as the first failed read does. */
  lemma {:induction false} LoopEnds(k: Keyed, start: nat, end: nat, items: seq<Item>, i: nat, prev: seq<byte>)
    requires Usable(Some(k)) && i <= |items|
    ensures DeliverFrom(Some(k), start, end, items, i, prev).end == FirstFailure(items[i..])
    decreases |items| - i
  {
    hide StepOf, NextBytes, Kept, Usable;
    if i == |items| {
    } else {
      assert items[i..][0] == items[i] && items[i..][1..] == items[i + 1..];
      if i + 1 < |items| { assert items[i + 1..][0] == items[i + 1]; }
      if items[i].Buffer? && (i + 1 < |items| ==> items[i + 1].Buffer?) {
        var (step, bytes) := StepOf(Some(k), start, end, items[i].offset, items[i].bytes, prev,
                                    NextBytes(Some(k), items, i));
        NoBadId(k, start, end, items[i].offset, items[i].bytes, prev, NextBytes(Some(k), items, i));
        LoopEnds(k, start, end, items, i + 1, Kept(Some(k), items[i].bytes, bytes));
      }
    }
  }

  lemma NoBadId(k: Keyed, start: nat, end: nat, offset: int, bytes: seq<byte>, prev: seq<byte>, next: seq<byte>)
    requires Usable(Some(k))
    ensures StepOf(Some(k), start, end, offset, bytes, prev, next).0 != BadId
  {
  }

  lemma {:induction false} FailureConcat(a: seq<Item>, b: seq<Item>)
    ensures FirstFailure(a + b) == if FirstFailure(a) == Done then FirstFailure(b) else FirstFailure(a)
  {
    if a == [] {
      assert a + b == b;
    } else {
      assert (a + b)[0] == a[0] && (a + b)[1..] == a[1..] + b;
      FailureConcat(a[1..], b);
    }
  }

  /** One piece of a plan fails exactly when it is not empty and ends beyond the archive. */
  lemma PieceFails(bdt: seq<byte>, p: Piece, fileStart: nat)
    requires -U64_LIMIT / 2 <= p.pos - fileStart < U64_LIMIT / 2
    ensures FirstFailure(ReadAll(bdt, [p], fileStart))
            == if p.len > 0 && p.pos + p.len > |bdt| then Failed(UnexpectedEof) else Done
  {
    assert ReadAll(bdt, [p][1..], fileStart) == [];
    var items := ReadAll(bdt, [p], fileStart);
    if items != [] { assert items[1..] == []; }
  }

  lemma {:induction false} BodiesFail(bdt: seq<byte>, pos: nat, end: nat, fileStart: nat)
    requires fileStart <= pos && end < fileStart + U32_LIMIT
    ensures FirstFailure(ReadAll(bdt, BodyPlan(pos, end), fileStart))
            == if pos < end && end > |bdt| then Failed(UnexpectedEof) else Done
    decreases Max(0, end - pos)
  {
    if pos >= end {
    } else {
      var first, rest := Piece(Min(end - pos, BUFFER_LEN), pos), BodyPlan(pos + BUFFER_LEN, end);
      BodiesFail(bdt, pos + BUFFER_LEN, end, fileStart);
      assert BodyPlan(pos, end) == [first] + rest;
      hide BodyPlan, ReadAll, FirstFailure;
      ReadAllConcat(bdt, [first], rest, fileStart);
      FailureConcat(ReadAll(bdt, [first], fileStart), ReadAll(bdt, rest, fileStart));
      PieceFails(bdt, first, fileStart);
    }
  }

  lemma OneWindowFails(bdt: seq<byte>, w: nat, start: nat, len: nat, fileStart: nat, fileLen: nat)
    requires 0 < w <= start && w < U32_LIMIT && fileLen < U32_LIMIT && InBounds(start, len, fileStart, fileLen)
    ensures FirstFailure(OneWindow(bdt, w, start, len, fileStart, fileStart + fileLen))
            == if Min(start + len + w, fileStart + fileLen) > |bdt| then Failed(UnexpectedEof) else Done
    ensures OneWindow(bdt, w, start, len, fileStart, fileStart + fileLen) != []
  {
    var pos, end := start - w, Min(start + len + w, fileStart + fileLen);
    var items := OneWindow(bdt, w, start, len, fileStart, fileStart + fileLen);
    if end > |bdt| {
      assert Read(bdt, Piece(end - pos, pos), fileStart) == Some(Failure(UnexpectedEof));
    } else {
      var b := bdt[pos..end];
      assert Read(bdt, Piece(end - pos, pos), fileStart) == Some(Buffer(b, pos - fileStart));
      BuffersDoNotFail(items);
    }
  }

  lemma {:induction false} BuffersDoNotFail(items: seq<Item>)
    requires AllBuffers(items)
    ensures FirstFailure(items) == Done
  {
    if items == [] {
    } else {
      BuffersDoNotFail(items[1..]);
    }
  }

  lemma WindowPlanFails(bdt: seq<byte>, w: nat, start: nat, len: nat, fileStart: nat, fileLen: nat)
    requires w > 0 && len > 0 && fileLen < U32_LIMIT && InBounds(start, len, fileStart, fileLen)
    ensures FirstFailure(ReadAll(bdt, WindowPlan(w, start, len, fileStart, fileLen), fileStart))
            == if Min(start + len + w, fileStart + fileLen) > |bdt| then Failed(UnexpectedEof) else Done
    ensures ReadAll(bdt, WindowPlan(w, start, len, fileStart, fileLen), fileStart) != []
  {
    var head, tail := HeadPiece(w, start, fileStart), TailPiece(w, start + len, fileStart + fileLen);
    BodyNotEmpty(bdt, start, len, fileStart);
    PiecePlaces(w, start, len, fileStart, fileLen);
    hide ReadAll, FirstFailure, BodyPlan, HeadPiece, TailPiece;
    ThreePartsFail(bdt, head, BodyPlan(start, start + len), tail, fileStart);
    PieceFails(bdt, head, fileStart);
    BodiesFail(bdt, start, start + len, fileStart);
    PieceFails(bdt, tail, fileStart);
  }

  lemma PiecePlaces(w: nat, start: nat, len: nat, fileStart: nat, fileLen: nat)
    requires fileLen < U32_LIMIT && InBounds(start, len, fileStart, fileLen)
    ensures var head := HeadPiece(w, start, fileStart);
            fileStart <= head.pos && head.pos + head.len == start && start - fileStart < U32_LIMIT
    ensures var tail := TailPiece(w, start + len, fileStart + fileLen);
            && tail.pos == start + len && tail.pos + tail.len == Min(start + len + w, fileStart + fileLen)
            && start + len - fileStart < U32_LIMIT
  {
  }

  lemma ThreePartsFail(bdt: seq<byte>, head: Piece, body: seq<Piece>, tail: Piece, fileStart: nat)
    ensures var all := ReadAll(bdt, [head] + body + [tail], fileStart);
            && FirstFailure(all)
               == (if FirstFailure(ReadAll(bdt, [head], fileStart)) != Done
                   then FirstFailure(ReadAll(bdt, [head], fileStart))
                   else if FirstFailure(ReadAll(bdt, body, fileStart)) != Done
                   then FirstFailure(ReadAll(bdt, body, fileStart))
                   else FirstFailure(ReadAll(bdt, [tail], fileStart)))
            && (ReadAll(bdt, body, fileStart) != [] ==> all != [])
  {
    hide ReadAll, FirstFailure;
    PlanInThree(bdt, head, body, tail, fileStart);
    var a, b, c := ReadAll(bdt, [head], fileStart), ReadAll(bdt, body, fileStart), ReadAll(bdt, [tail], fileStart);
    FailureConcat(a + b, c);
    FailureConcat(a, b);
  }

  lemma BodyNotEmpty(bdt: seq<byte>, start: nat, len: nat, fileStart: nat)
    requires len > 0
    ensures ReadAll(bdt, BodyPlan(start, start + len), fileStart) != []
  {
  }

  lemma WindowsFail(bdt: seq<byte>, w: nat, start: nat, len: nat, fileStart: nat, fileLen: nat)
    requires 0 < w < U32_LIMIT && len > 0 && fileLen < U32_LIMIT && InBounds(start, len, fileStart, fileLen)
    ensures FirstFailure(StreamWindows(bdt, w, start, len, fileStart, fileLen))
            == if Min(start + len + w, fileStart + fileLen) > |bdt| then Failed(UnexpectedEof) else Done
    ensures StreamWindows(bdt, w, start, len, fileStart, fileLen) != []
  {
    hide ReadAll, OneWindow, FirstFailure, WindowPlan;
    if FitsOneWindow(w, start, len) {
      OneWindowFails(bdt, w, start, len, fileStart, fileLen);
    } else {
      WindowPlanFails(bdt, w, start, len, fileStart, fileLen);
    }
  }

  /** A non-empty read with a known id succeeds exactly when the archive holds the request and, as far as the file
      goes, the window behind it. Otherwise it fails at the archive's end. */
  lemma EncryptedReadEnds(file: DvdbndFile, bdt: seq<byte>, k: Keyed, w: nat, fo: nat, l: nat)
    requires (w == 64 || w == 512) && 0 < l && fo + l <= file.len && Usable(Some(k))
    ensures EncryptedSpec(file, bdt, Some(k), w, fo, l).end
            == if file.dataOffset + Min(fo + l + w, file.len) <= |bdt| then Done else Failed(UnexpectedEof)
  {
    hide StreamWindows, DeliverFrom, FirstFailure, Usable;
    var items := StreamWindows(bdt, w, file.dataOffset + fo, l, file.dataOffset, file.len);
    WindowsFail(bdt, w, file.dataOffset + fo, l, file.dataOffset, file.len);
    LoopEnds(k, fo, fo + l, items, 0, []);
    assert items[0..] == items;
  }

  /** One read: nothing for no octets; refused where the place is not within 2^63 of the file's start; failed where
      the archive ends before it; and else the octets, with their place in the file. */
  lemma OneReadOf(bdt: seq<byte>, pos: nat, len: nat, fileStart: nat)
    ensures Read(bdt, Piece(len, pos), fileStart)
            == if len == 0 then None
               else if pos - fileStart >= 0x8000_0000_0000_0000 || fileStart - pos > 0x8000_0000_0000_0000
               then Some(Failure(InvalidInput))
               else if |bdt| < pos + len then Some(Failure(UnexpectedEof))
               else Some(Buffer(bdt[pos..pos + len], pos - fileStart))
  {
  }

  /** A buffer that goes on behind the request loses what lies 15 octets or more behind it before it is decrypted. */
  lemma CutBeforeDecryption(bytes: seq<byte>, offset: nat, end: nat)
    requires offset < end
    ensures WithoutOverread(bytes, offset, end) == bytes[..Min(|bytes|, end - offset + 15)]
  {
  }

  /** What the closure passes on: nothing of a buffer that does not start in the file, nor of one that ends up empty,
      and else what lies before the request's end. */
  lemma ClippedChunk(bytes: seq<byte>, offset: int, end: nat)
    ensures Clip(Chunk(bytes, offset), end)
            == if offset < 0 || offset >= 0x1_0000_0000 || offset >= end || bytes == [] then None
               else Some(Chunk(bytes[..Min(|bytes|, end - offset)], offset))
  {
  }

  // ---- unknown ids ----

  /** Without a key nothing is delivered, and the first buffer of the request ends the loop. */
  lemma {:induction false} UnknownDelivers(start: nat, end: nat, items: seq<Item>, i: nat, prev: seq<byte>)
    requires i <= |items| && forall j :: 0 <= j < |items| ==> items[j].Buffer?
    ensures DeliverFrom(None, start, end, items, i, prev).chunks == []
    ensures (exists j :: i <= j < |items| && start <= items[j].offset < end) ==>
              DeliverFrom(None, start, end, items, i, prev).end == Failed(BadEncryptionId)
    decreases |items| - i
  {
    hide NextBytes, Kept;
    if i == |items| {
    } else {
      var (_, bytes) := StepOf(None, start, end, items[i].offset, items[i].bytes, prev, NextBytes(None, items, i));
      UnknownDelivers(start, end, items, i + 1, Kept(None, items[i].bytes, bytes));
    }
  }

  /** A non-empty read with an unknown id delivers nothing and fails for that reason. */
  lemma UnknownIdFails(file: DvdbndFile, bdt: seq<byte>, w: nat, fo: nat, l: nat)
    requires (w == 64 || w == 512) && 0 < l && fo + l <= file.len && file.dataOffset + file.len <= |bdt|
    ensures EncryptedSpec(file, bdt, None, w, fo, l) == Delivery([], Failed(BadEncryptionId))
  {
    hide StreamWindows, DeliverFrom, IsBefore, IsAfter;
    var before, after := WindowsShape(file, bdt, w, fo, l);
    var items := StreamWindows(bdt, w, file.dataOffset + fo, l, file.dataOffset, file.len);
    var bodies := Bodies(FileBytes(file, bdt), fo, fo + l);
    ContextBuffers(before, after, FileBytes(file, bdt), fo, fo + l);
    BodiesAreBuffers(FileBytes(file, bdt), fo, fo + l);
    assert items[|before|] == bodies[0] && bodies[0].offset == fo;
    UnknownDelivers(fo, fo + l, items, 0, []);
  }

  lemma ContextBuffers(before: seq<Item>, after: seq<Item>, file: seq<byte>, from: nat, to: nat)
    requires from <= to <= |file| && IsBefore(before, file, from) && IsAfter(after, file, to)
    ensures forall i :: 0 <= i < |before| ==> before[i].Buffer?
    ensures forall i :: 0 <= i < |after| ==> after[i].Buffer?
  {
  }

  // ---- callbacks that fail ----

  /** The callback is called with every chunk until it fails. If it never does, the read ends as it would. */
  lemma NeverFails(d: Delivery, f: Callback)
    requires forall k :: 0 < k <= |d.chunks| ==> !f(d.chunks[..k])
    ensures Called(d, f) == d
  {
    forall k | 0 <= k < |d.chunks| ensures !FailsAt(f, d.chunks, k) {
      assert !f(d.chunks[..k + 1]);
    }
    CalledToTheEnd(d, f);
  }

  /** If it fails first when given `n` chunks, these are all it is given, and the read fails. */
  lemma FailsFirst(d: Delivery, f: Callback, n: nat)
    requires 0 < n <= |d.chunks| && f(d.chunks[..n]) && forall k :: 0 < k < n ==> !f(d.chunks[..k])
    ensures Called(d, f) == Delivery(d.chunks[..n], Failed(CallbackFailed))
  {
    var more, front := d.chunks[..n], d.chunks[..n][..n - 1];
    forall k | 0 <= k < |front| ensures !FailsAt(f, front, k) {
      assert front[..k + 1] == d.chunks[..k + 1];
      assert !f(d.chunks[..k + 1]);
    }
    CalledUntil(d, f, more);
  }
}

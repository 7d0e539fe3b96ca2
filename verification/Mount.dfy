/** Reading a mounted file: `read_file` and `read_and_decrypt_file`. */
module Mount {
  import opened Bytes
  import opened BlockCipher
  import opened WindowDecryptor
  import opened CiphertextRing
  import opened AlignedStream
  import opened EncryptionRecords

  datatype DvdbndFile = DvdbndFile(dataOffset: u64, len: u32, unpadded: u32, encryption: Option<u32>) {
    /** An unpadded length of zero means that the file is not padded. */
    function UnpaddedLen(): u32 { if unpadded == 0 then len else unpadded }
  }

  /** What the callback is given: octets and their offset in the file. */
  datatype Chunk = Chunk(bytes: seq<byte>, offset: int)

  datatype End = Done | Failed(error: IoError) | Panicked

  datatype Delivery = Delivery(chunks: seq<Chunk>, end: End)

  /** A cipher under its key, with the ranges it applies to, and the version of the code that applies it. */
  datatype Keyed = Keyed(dec: Cipher, ranges: seq<Range>, version: Version)

  predicate Usable(keyed: Option<Keyed>) {
    keyed.Some? ==> SortedByEnd(keyed.value.ranges) && forall r :: r in keyed.value.ranges ==> r.End() < U32_LIMIT
  }

  /** The record behind an id, keyed. */
  function Lookup(store: seq<byte>, aes: Block -> Cipher, id: u32): Option<Keyed> {
    match Decode(store, id)
    case None => None
    case Some(rec) => Some(Keyed(aes(rec.key), rec.ranges, AsWritten))
  }

  datatype Step = Skip | Emit(chunk: Chunk) | BadId

  /** Drop what was read beyond the request, but for the rest of a last block. */
  function WithoutOverread(bytes: seq<byte>, offset: int, end: nat): seq<byte> {
    if offset + |bytes| < end then bytes
    else
      var overread := offset + |bytes| - end;
      TruncateTo(bytes, Max(0, |bytes| - overread) + BLOCK_SIZE - 1)
  }

  /** What one turn of the loop does with the current buffer, given its neighbours. */
  function StepOf(keyed: Option<Keyed>, start: nat, end: nat, offset: int, bytes: seq<byte>,
                  prev: seq<byte>, next: seq<byte>): (r: (Step, seq<byte>))
    requires Usable(keyed)
  {
    if offset < start || offset >= end then (Skip, bytes)
    else
      var cut := WithoutOverread(bytes, offset, end);
      if keyed.None? then (BadId, cut)
      else
        var out := DecryptWindow(keyed.value.version, keyed.value.dec, offset, cut, HeadOf(prev), TailOf(next),
                                 keyed.value.ranges);
        (Emit(Chunk(out, offset)), out)
  }

  /** The octets of all items from `i` on, up to the first failure. */
  function BytesFrom(items: seq<Item>, i: nat): seq<byte>
    decreases Max(0, |items| - i)
  {
    if i >= |items| || items[i].Failure? then [] else items[i].bytes + BytesFrom(items, i + 1)
  }

  /** What the tail of item `i` is taken from: the next item, or with the repair all that follow. */
  function NextBytes(keyed: Option<Keyed>, items: seq<Item>, i: nat): seq<byte> {
    if keyed.Some? && keyed.value.version.FullyRepaired? then BytesFrom(items, i + 1)
    else if i + 1 < |items| && items[i + 1].Buffer? then items[i + 1].bytes
    else []
  }

  /** What the head of the next item is taken from: the buffer as it is now, or with the repair as it was. */
  function Kept(keyed: Option<Keyed>, was: seq<byte>, now: seq<byte>): seq<byte> {
    if keyed.Some? && !keyed.value.version.AsWritten? then was else now
  }

  /** The loop from buffer `i` on, with `prev` for the head. */
  function DeliverFrom(keyed: Option<Keyed>, start: nat, end: nat, items: seq<Item>, i: nat, prev: seq<byte>): Delivery
    requires Usable(keyed) && i <= |items|
    decreases |items| - i
  {
    if i == |items| then Delivery([], Done)
    else if items[i].Failure? then Delivery([], Failed(items[i].error))
    else if i + 1 < |items| && items[i + 1].Failure? then Delivery([], Failed(items[i + 1].error))
    else
      var (step, bytes) := StepOf(keyed, start, end, items[i].offset, items[i].bytes, prev, NextBytes(keyed, items, i));
      match step
      case Skip => DeliverFrom(keyed, start, end, items, i + 1, Kept(keyed, items[i].bytes, bytes))
      case BadId => Delivery([], Failed(BadEncryptionId))
      case Emit(chunk) =>
        var rest := DeliverFrom(keyed, start, end, items, i + 1, Kept(keyed, items[i].bytes, bytes));
        Delivery([chunk] + rest.chunks, rest.end)
  }

  /** The whole loop; it panics when the stream gives no buffer at all. */
  function Deliver(keyed: Option<Keyed>, start: nat, end: nat, items: seq<Item>): Delivery
    requires Usable(keyed)
  {
    if items == [] then Delivery([], Panicked) else DeliverFrom(keyed, start, end, items, 0, [])
  }

  function Prepend(chunks: seq<Chunk>, d: Delivery): Delivery {
    Delivery(chunks + d.chunks, d.end)
  }

  /** The source's own code, with no repair. */
  predicate Unrepaired(keyed: Option<Keyed>) {
    keyed.Some? ==> keyed.value.version.AsWritten?
  }

  /** A callback: from all it was given so far, whether it fails on the last. */
  type Callback = seq<Chunk> -> bool

  predicate FailsAt(f: Callback, chunks: seq<Chunk>, k: nat)
    requires k < |chunks|
  {
    f(chunks[..k + 1])
  }

  predicate NoneFailed(f: Callback, chunks: seq<Chunk>) {
    forall k :: 0 <= k < |chunks| ==> !FailsAt(f, chunks, k)
  }

  /** A delivery stops at the first call that fails. */
  function Interrupted(d: Delivery, f: Callback, k: nat): Delivery
    requires k <= |d.chunks|
    decreases |d.chunks| - k
  {
    if k == |d.chunks| then d
    else if FailsAt(f, d.chunks, k) then Delivery(d.chunks[..k + 1], Failed(CallbackFailed))
    else Interrupted(d, f, k + 1)
  }

  /** What the callback is given of a delivery, and how it ends. */
  function Called(d: Delivery, f: Callback): Delivery {
    Interrupted(d, f, 0)
  }

  lemma {:induction false} InterruptedLater(d: Delivery, f: Callback, k: nat, m: nat)
    requires k <= m <= |d.chunks| && forall i :: k <= i < m ==> !FailsAt(f, d.chunks, i)
    ensures Interrupted(d, f, k) == Interrupted(d, f, m)
    decreases m - k
  {
    if k >= m {
    } else {
      InterruptedLater(d, f, k + 1, m);
    }
  }

  /** The first failing call is the last of `more`. */
  lemma CalledUntil(d: Delivery, f: Callback, more: seq<Chunk>)
    requires more != [] && more <= d.chunks && NoneFailed(f, more[..|more| - 1]) && f(more)
    ensures Called(d, f) == Delivery(more, Failed(CallbackFailed))
  {
    forall i | 0 <= i < |more| - 1 ensures !FailsAt(f, d.chunks, i) {
      assert d.chunks[..i + 1] == more[..|more| - 1][..i + 1];
      assert !FailsAt(f, more[..|more| - 1], i);
    }
    InterruptedLater(d, f, 0, |more| - 1);
    assert d.chunks[..|more|] == more;
  }

  lemma CalledToTheEnd(d: Delivery, f: Callback)
    requires NoneFailed(f, d.chunks)
    ensures Called(d, f) == d
  {
    InterruptedLater(d, f, 0, |d.chunks|);
  }

  lemma OneMoreCalled(f: Callback, chunks: seq<Chunk>, c: Chunk)
    requires NoneFailed(f, chunks)
    ensures NoneFailed(f, chunks + [c]) <==> !f(chunks + [c])
    ensures (chunks + [c])[..|chunks|] == chunks
  {
    var more := chunks + [c];
    forall k | 0 <= k < |chunks| ensures !FailsAt(f, more, k) {
      assert more[..k + 1] == chunks[..k + 1];
      assert !FailsAt(f, chunks, k);
    }
    assert more[..|chunks| + 1] == more;
    assert FailsAt(f, more, |chunks|) <==> f(more);
  }

  /** A turn emits at most one chunk. */
  predicate Extends(chunks: seq<Chunk>, more: seq<Chunk>) {
    more == chunks || (|more| == |chunks| + 1 && more == chunks + [more[|chunks|]])
  }

  predicate BufferOk(b: AlignedBuffer?)
    reads b
  {
    b != null ==> b.Valid()
  }

  /** One turn of the loop on the ring's current buffer. */
  method ProcessCurrent(ring: CiphertextBuffer, keyed: Option<Keyed>, start: nat, end: nat) returns (step: Step)
    requires ring.Valid() && Usable(keyed) && Unrepaired(keyed)
    requires Current(ring.pushed) != null && Current(ring.pushed).Valid()
    requires BufferOk(Before(ring.pushed)) && BufferOk(After(ring.pushed))
    requires Current(ring.pushed) !in [Before(ring.pushed), After(ring.pushed)]
    requires Before(ring.pushed) != null ==> Before(ring.pushed).data != Current(ring.pushed).data
    requires After(ring.pushed) != null ==> After(ring.pushed).data != Current(ring.pushed).data
    requires Current(ring.pushed).offset + Current(ring.pushed).len < U32_LIMIT
    modifies Current(ring.pushed), Current(ring.pushed).data
    ensures Current(ring.pushed).Valid()
    ensures (step, Current(ring.pushed).Bytes())
            == StepOf(keyed, start, end, Current(ring.pushed).offset, old(Current(ring.pushed).Bytes()),
                      old(BytesOf(Before(ring.pushed))), old(BytesOf(After(ring.pushed))))
  {
    hide DecryptWindow, HeadOf, TailOf, SortedByEnd;
    var curr := ring.Curr();
    if curr.offset < start || curr.offset >= end {
      return Skip;
    }
    var bufferEnd := curr.offset + curr.len;
    if bufferEnd >= end {
      var overread := bufferEnd - end;
      curr.Truncate(Max(0, curr.len - overread) + BLOCK_SIZE - 1);
    }
    var head, tail := ContextOf(ring);
    if keyed.None? {
      return BadId;
    }
    Decrypt(keyed.value.dec, keyed.value.ranges, curr.data, curr.len, head, tail, curr.offset);
    step := Emit(Chunk(curr.Bytes(), curr.offset));
  }

  lemma DeliverTurn(keyed: Option<Keyed>, start: nat, end: nat, items: seq<Item>, i: nat, prev: seq<byte>,
                    chunks: seq<Chunk>)
    requires Usable(keyed) && i < |items| && items[i].Buffer? && (i + 1 < |items| ==> items[i + 1].Buffer?)
    ensures var (step, bytes) := StepOf(keyed, start, end, items[i].offset, items[i].bytes, prev,
                                        NextBytes(keyed, items, i));
            Prepend(chunks, DeliverFrom(keyed, start, end, items, i, prev))
            == match step
               case Skip => Prepend(chunks,
                                    DeliverFrom(keyed, start, end, items, i + 1, Kept(keyed, items[i].bytes, bytes)))
               case BadId => Delivery(chunks, Failed(BadEncryptionId))
               case Emit(c) =>
                 Prepend(chunks + [c], DeliverFrom(keyed, start, end, items, i + 1, Kept(keyed, items[i].bytes, bytes)))
  {
  }

  /** One turn of the loop, item `i` being current: the chunks grow, or the loop ends. */
  method Turn(ring: CiphertextBuffer, keyed: Option<Keyed>, start: nat, end: nat, chunks: seq<Chunk>,
              ghost items: seq<Item>, ghost i: nat) returns (stop: bool, more: seq<Chunk>)
    requires ring.Valid() && Usable(keyed) && Unrepaired(keyed) && i < |items| && items[i].Buffer?
    requires i + 1 < |items| ==> items[i + 1].Buffer?
    requires Current(ring.pushed) != null && Current(ring.pushed).Valid()
    requires BufferOk(Before(ring.pushed)) && BufferOk(After(ring.pushed))
    requires Current(ring.pushed) !in [Before(ring.pushed), After(ring.pushed)]
    requires Before(ring.pushed) != null ==> Before(ring.pushed).data != Current(ring.pushed).data
    requires After(ring.pushed) != null ==> After(ring.pushed).data != Current(ring.pushed).data
    requires Current(ring.pushed).offset + Current(ring.pushed).len < U32_LIMIT
    requires items[i].offset == Current(ring.pushed).offset && items[i].bytes == Current(ring.pushed).Bytes()
    requires NextBytes(keyed, items, i) == BytesOf(After(ring.pushed))
    modifies Current(ring.pushed), Current(ring.pushed).data
    ensures Current(ring.pushed).Valid() && Extends(chunks, more)
    ensures Prepend(chunks, DeliverFrom(keyed, start, end, items, i, old(BytesOf(Before(ring.pushed)))))
            == if stop then Delivery(more, Failed(BadEncryptionId))
               else Prepend(more, DeliverFrom(keyed, start, end, items, i + 1, Current(ring.pushed).Bytes()))
  {
    hide DeliverFrom, StepOf;
    DeliverTurn(keyed, start, end, items, i, BytesOf(Before(ring.pushed)), chunks);
    var step := ProcessCurrent(ring, keyed, start, end);
    match step {
      case Skip => return false, chunks;
      case BadId => return true, chunks;
      case Emit(chunk) => return false, chunks + [chunk];
    }
  }

  /** The ring's last two entries: the newest still holds what was read. */
  ghost predicate Loaded(ring: CiphertextBuffer, stream: seq<Item>, next: nat, last: AlignedBuffer?,
                         older: AlignedBuffer?)
    reads ring, last, older, if last == null then {} else {last.data}
  {
    && |ring.pushed| == next <= |stream|
    && At(ring.pushed, next - 1) == last && At(ring.pushed, next - 2) == older
    && (next > 0 <==> last != null) && (next > 1 <==> older != null)
    && BufferOk(older)
    && (older != null ==> older != last && older.data != last.data)
    && (last != null ==>
          && last.Valid() && stream[next - 1].Buffer?
          && last.offset == stream[next - 1].offset && last.Bytes() == stream[next - 1].bytes)
  }

  /** A failed read ends the loop before its predecessor is processed. */
  lemma FailureEnds(keyed: Option<Keyed>, start: nat, end: nat, items: seq<Item>, i: nat, prev: seq<byte>,
                    chunks: seq<Chunk>)
    requires Usable(keyed) && i < |items| && items[i].Failure? && (i > 0 ==> items[i - 1].Buffer?)
    ensures Prepend(chunks, DeliverFrom(keyed, start, end, items, if i == 0 then 0 else i - 1, prev))
            == Delivery(chunks, Failed(items[i].error))
  {
    hide StepOf;
  }

  lemma FromTheStart(keyed: Option<Keyed>, start: nat, end: nat, items: seq<Item>)
    requires Usable(keyed)
    ensures Deliver(keyed, start, end, items)
            == if items == [] then Delivery([], Panicked) else Prepend([], DeliverFrom(keyed, start, end, items, 0, []))
  {
    hide DeliverFrom;
  }

  lemma LastIsBuffer(ring: CiphertextBuffer, stream: seq<Item>, next: nat, last: AlignedBuffer?, older: AlignedBuffer?)
    requires Loaded(ring, stream, next, last, older)
    ensures next > 0 ==> stream[next - 1].Buffer? && last != null
    ensures next == 0 ==> last == null && older == null
    ensures |ring.pushed| == next
  {
  }

  /** `read_and_decrypt_file`, with the closure `f` that it is given. */
  method ReadAndDecryptFile(file: DvdbndFile, bdt: seq<byte>, w: nat, dataStart: nat, len: nat, keyed: Option<Keyed>,
                            f: Callback)
    returns (d: Delivery)
    requires w > 0 && InBounds(dataStart, len, file.dataOffset, file.len) && Usable(keyed) && Unrepaired(keyed)
    ensures var start := dataStart - file.dataOffset;
            d == Called(Deliver(keyed, start, start + len,
                                StreamWindows(bdt, w, dataStart, len, file.dataOffset, file.len)), f)
  {
    hide Called, Deliver;
    var start: u32 := dataStart - file.dataOffset;
    var end: u32 := start + len;
    var stream := StreamWindows(bdt, w, dataStart, len, file.dataOffset, file.len);
    WindowsEndInFile(bdt, w, dataStart, len, file.dataOffset, file.len);
    d := DriveRing(keyed, start, end, stream, f);
  }

  /** The first buffer is only pushed: its successor has to be known first. */
  method PushFirst(ring: CiphertextBuffer, stream: seq<Item>) returns (buf: AlignedBuffer)
    requires stream != [] && stream[0].Buffer? && Loaded(ring, stream, 0, null, null) && ring.Valid()
    modifies ring, ring.inner
    ensures ring.Valid() && Loaded(ring, stream, 1, buf, null) && fresh(buf) && fresh(buf.data)
  {
    buf := new AlignedBuffer(stream[0].bytes, stream[0].offset);
    ring.Push(buf);
  }

  /** A later buffer is pushed, and its predecessor processed. */
  method PushAndProcess(ring: CiphertextBuffer, keyed: Option<Keyed>, start: nat, end: nat, chunks: seq<Chunk>,
                        stream: seq<Item>, next: nat, ghost last: AlignedBuffer, ghost older: AlignedBuffer?)
    returns (stop: bool, more: seq<Chunk>, buf: AlignedBuffer)
    requires Usable(keyed) && Unrepaired(keyed) && EndInFile(stream, U32_LIMIT - 1)
    requires ring.Valid() && 0 < next < |stream| && stream[next].Buffer? && Loaded(ring, stream, next, last, older)
    modifies ring, ring.inner, last, last.data
    ensures ring.Valid() && Loaded(ring, stream, next + 1, buf, last) && fresh(buf) && fresh(buf.data)
    ensures Extends(chunks, more)
    ensures Prepend(chunks, DeliverFrom(keyed, start, end, stream, next - 1, old(BytesOf(older))))
            == if stop then Delivery(more, Failed(BadEncryptionId))
               else Prepend(more, DeliverFrom(keyed, start, end, stream, next, last.Bytes()))
  {
    hide DeliverFrom, Extends;
    buf := new AlignedBuffer(stream[next].bytes, stream[next].offset);
    ring.Push(buf);
    stop, more := Turn(ring, keyed, start, end, chunks, stream, next - 1);
  }

  /** No buffer follows: the last one is processed, or there is none and the source panics. */
  method FinishAndProcess(ring: CiphertextBuffer, keyed: Option<Keyed>, start: nat, end: nat, chunks: seq<Chunk>,
                          ghost stream: seq<Item>, ghost last: AlignedBuffer?, ghost older: AlignedBuffer?)
    returns (d: Delivery)
    requires Usable(keyed) && Unrepaired(keyed) && EndInFile(stream, U32_LIMIT - 1)
    requires ring.Valid() && Loaded(ring, stream, |stream|, last, older)
    modifies ring, ring.inner, last, if last == null then {} else {last.data}
    ensures Extends(chunks, d.chunks)
    ensures d == if stream == [] then Delivery(chunks, Panicked)
                 else Prepend(chunks, DeliverFrom(keyed, start, end, stream, |stream| - 1, old(BytesOf(older))))
  {
    hide DecryptWindow, StepOf;
    ring.Finish();
    var curr := ring.Curr();
    if curr == null {
      return Delivery(chunks, Panicked);
    }
    var stop, more := Turn(ring, keyed, start, end, chunks, stream, |stream| - 1);
    d := Delivery(more, if stop then Failed(BadEncryptionId) else Done);
  }

  /** The same, with the call of `f`; the loop ends if the decryption or the call fails. */
  method PushProcessCall(ring: CiphertextBuffer, keyed: Option<Keyed>, start: nat, end: nat, chunks: seq<Chunk>,
                         stream: seq<Item>, next: nat, ghost last: AlignedBuffer, ghost older: AlignedBuffer?,
                         f: Callback, ghost total: Delivery)
    returns (ended: Option<Delivery>, more: seq<Chunk>, buf: AlignedBuffer)
    requires Usable(keyed) && Unrepaired(keyed) && EndInFile(stream, U32_LIMIT - 1)
    requires ring.Valid() && 0 < next < |stream| && stream[next].Buffer? && Loaded(ring, stream, next, last, older)
    requires total == Prepend(chunks, DeliverFrom(keyed, start, end, stream, next - 1, BytesOf(older)))
    requires NoneFailed(f, chunks)
    modifies ring, ring.inner, last, last.data
    ensures ring.Valid() && Loaded(ring, stream, next + 1, buf, last) && fresh(buf) && fresh(buf.data)
    ensures ended.Some? ==> ended.value == Called(total, f)
    ensures ended.None? ==>
              NoneFailed(f, more) && total == Prepend(more, DeliverFrom(keyed, start, end, stream, next, last.Bytes()))
  {
    hide DeliverFrom, EndInFile, Usable, Called, NoneFailed, Extends, Prepend;
    var stop;
    stop, more, buf := PushAndProcess(ring, keyed, start, end, chunks, stream, next, last, older);
    StepCalled(f, chunks, more, total, DeliverFrom(keyed, start, end, stream, next, last.Bytes()), stop);
    ended := if |more| > |chunks| && f(more) then Some(Delivery(more, Failed(CallbackFailed)))
             else if stop then Some(Delivery(more, Failed(BadEncryptionId)))
             else None;
  }

  /** Its loop: pull buffers into the ring, process each once its successor is there, and call `f` with what
      comes of it. */
  method DriveRing(keyed: Option<Keyed>, start: u32, end: u32, stream: seq<Item>, f: Callback) returns (d: Delivery)
    requires Usable(keyed) && Unrepaired(keyed) && EndInFile(stream, U32_LIMIT - 1)
    ensures d == Called(Deliver(keyed, start, end, stream), f)
  {
    hide Deliver, DeliverFrom, EndInFile, Usable, Called, NoneFailed, Extends, Prepend;
    FromTheStart(keyed, start, end, stream);
    var ring := EmptyRing(stream);
    var next := 0;
    var chunks: seq<Chunk> := [];
    ghost var last: AlignedBuffer?, older: AlignedBuffer? := null, null;
    ghost var total := Deliver(keyed, start, end, stream);
    NothingCalled(f);

    while next < |stream|
      invariant next <= |stream| && ring.Valid() && fresh(ring) && fresh(ring.inner)
      invariant Loaded(ring, stream, next, last, older)
      invariant last != null ==> fresh(last) && fresh(last.data)
      invariant next == 0 ==> chunks == []
      invariant next > 0 ==>
        total == Prepend(chunks, DeliverFrom(keyed, start, end, stream, next - 1, BytesOf(older)))
      invariant NoneFailed(f, chunks)
    {
      LastIsBuffer(ring, stream, next, last, older);
      if stream[next].Failure? {
        FailureEnds(keyed, start, end, stream, next, BytesOf(older), chunks);
        CalledToTheEnd(total, f);
        return Delivery(chunks, Failed(stream[next].error));
      }
      var isFirst := ring.IsEmpty();
      if isFirst {
        var buf := PushFirst(ring, stream);
        last := buf;
      } else {
        var ended, more, buf := PushProcessCall(ring, keyed, start, end, chunks, stream, next, last, older, f, total);
        if ended.Some? {
          return ended.value;
        }
        chunks := more;
        older, last := last, buf;
      }
      next := next + 1;
    }
    d := FinishAndProcess(ring, keyed, start, end, chunks, stream, last, older);
    LastCalled(f, chunks, d);
    if |d.chunks| > |chunks| && f(d.chunks) {
      d := Delivery(d.chunks, Failed(CallbackFailed));
    }
  }

  method EmptyRing(ghost stream: seq<Item>) returns (ring: CiphertextBuffer)
    ensures ring.Valid() && Loaded(ring, stream, 0, null, null) && fresh(ring) && fresh(ring.inner)
  {
    ring := new CiphertextBuffer();
  }

  lemma NothingCalled(f: Callback)
    ensures NoneFailed(f, [])
  {
  }

  /** A turn that may have called `f`, with `rest` still to come. */
  lemma StepCalled(f: Callback, chunks: seq<Chunk>, more: seq<Chunk>, total: Delivery, rest: Delivery, stop: bool)
    requires NoneFailed(f, chunks) && Extends(chunks, more)
    requires stop ==> total == Delivery(more, Failed(BadEncryptionId))
    requires !stop ==> total == Prepend(more, rest)
    ensures |more| > |chunks| && f(more) ==> Called(total, f) == Delivery(more, Failed(CallbackFailed))
    ensures !(|more| > |chunks| && f(more)) ==> NoneFailed(f, more) && (stop ==> Called(total, f) == total)
  {
    hide NoneFailed, Called;
    if more != chunks { OneMoreCalled(f, chunks, more[|chunks|]); }
    if |more| > |chunks| && f(more) {
      CalledUntil(total, f, more);
    } else if stop {
      CalledToTheEnd(total, f);
    }
  }

  lemma LastCalled(f: Callback, chunks: seq<Chunk>, d: Delivery)
    requires NoneFailed(f, chunks) && Extends(chunks, d.chunks)
    ensures Called(d, f) == if |d.chunks| > |chunks| && f(d.chunks) then Delivery(d.chunks, Failed(CallbackFailed))
            else d
  {
    hide NoneFailed, Called;
    if d.chunks != chunks { OneMoreCalled(f, chunks, d.chunks[|chunks|]); }
    if |d.chunks| > |chunks| && f(d.chunks) {
      CalledUntil(d, f, d.chunks);
    } else {
      CalledToTheEnd(d, f);
    }
  }

  /** The closure between the streams and the caller: drop what lies before the file or beyond the request. */
  function Clip(c: Chunk, end: nat): Option<Chunk> {
    if !(0 <= c.offset < U32_LIMIT) then None
    else
      var keep := Max(0, Min(c.offset + |c.bytes|, end) - c.offset);
      if keep == 0 then None else Some(Chunk(c.bytes[..keep], c.offset))
  }

  function ClipAll(chunks: seq<Chunk>, end: nat): (r: seq<Chunk>) {
    if chunks == [] then []
    else
      match Clip(chunks[0], end)
      case None => ClipAll(chunks[1..], end)
      case Some(c) => [c] + ClipAll(chunks[1..], end)
  }

  /** The plain loop over a stream: buffers as they come, up to the first failure. */
  function Forward(items: seq<Item>): Delivery {
    if items == [] then Delivery([], Done)
    else if items[0].Failure? then Delivery([], Failed(items[0].error))
    else Prepend([Chunk(items[0].bytes, items[0].offset)], Forward(items[1..]))
  }

  /** A request clipped to the unpadded file. */
  function ClippedOffset(file: DvdbndFile, offset: nat): (fo: u32)
    ensures fo <= file.UnpaddedLen()
  {
    Min(offset, file.UnpaddedLen())
  }

  function ClippedLen(file: DvdbndFile, offset: nat, len: nat): (l: u32)
    ensures ClippedOffset(file, offset) + l <= file.UnpaddedLen()
  {
    Min(len, file.UnpaddedLen() - ClippedOffset(file, offset))
  }

  /** What the parser accepts, and offsets that do not overflow. */
  predicate Readable(file: DvdbndFile, w: nat) {
    file.unpadded <= file.len && file.dataOffset + file.len + w < U64_LIMIT
  }

  function Clipped(raw: Delivery, end: nat): Delivery {
    Delivery(ClipAll(raw.chunks, end), raw.end)
  }

  function UnencryptedSpec(file: DvdbndFile, bdt: seq<byte>, fo: nat, l: nat): Delivery
    requires fo + l <= file.len
  {
    Clipped(Forward(StreamRead(bdt, file.dataOffset + fo, l, file.dataOffset, file.len)), fo + l)
  }

  function EncryptedSpec(file: DvdbndFile, bdt: seq<byte>, keyed: Option<Keyed>, w: nat, fo: nat, l: nat): Delivery
    requires w > 0 && fo + l <= file.len && Usable(keyed)
  {
    Clipped(Deliver(keyed, fo, fo + l, StreamWindows(bdt, w, file.dataOffset + fo, l, file.dataOffset, file.len)),
            fo + l)
  }

  /** What `read_file` gives its callback. */
  function ReadSpec(file: DvdbndFile, bdt: seq<byte>, keyed: Option<Keyed>, w: nat, offset: u64, len: u32): Delivery
    requires w > 0 && Readable(file, w) && Usable(keyed)
  {
    var fo, l := ClippedOffset(file, offset), ClippedLen(file, offset, len);
    if file.encryption.Some? then EncryptedSpec(file, bdt, keyed, w, fo, l) else UnencryptedSpec(file, bdt, fo, l)
  }

  lemma {:induction false} ClipAllAppend(a: seq<Chunk>, c: Chunk, end: nat)
    ensures ClipAll(a + [c], end) == ClipAll(a, end) + (match Clip(c, end) case None => [] case Some(k) => [k])
  {
    if a == [] {
    } else {
      assert (a + [c])[0] == a[0] && (a + [c])[1..] == a[1..] + [c];
      ClipAllAppend(a[1..], c, end);
    }
  }

  function KeyedFor(file: DvdbndFile, store: seq<byte>, aes: Block -> Cipher): Option<Keyed> {
    match file.encryption
    case None => None
    case Some(id) => Lookup(store, aes, id)
  }

  /** The closure that `read_file` makes of its caller's callback. */
  function Clipping(f: Callback, end: nat): Callback {
    (chunks: seq<Chunk>) => chunks != [] && Clip(chunks[|chunks| - 1], end).Some? && f(ClipAll(chunks, end))
  }

  lemma {:induction false} ClipAllPrefix(chunks: seq<Chunk>, k: nat, end: nat)
    requires k <= |chunks|
    ensures ClipAll(chunks[..k], end) <= ClipAll(chunks, end)
    decreases |chunks|
  {
    if k == |chunks| {
      assert chunks[..k] == chunks;
    } else {
      var front, last := chunks[..|chunks| - 1], chunks[|chunks| - 1];
      assert chunks == front + [last] && front[..k] == chunks[..k];
      ClipAllAppend(front, last, end);
      ClipAllPrefix(front, k, end);
    }
  }

  /** What the callback is called with, through the closure or on the clipped chunks, is the same. */
  lemma {:induction false} ClippedCalls(d: Delivery, f: Callback, end: nat, k: nat)
    requires k <= |d.chunks| && ClipAll(d.chunks[..k], end) <= ClipAll(d.chunks, end)
    ensures Clipped(Interrupted(d, Clipping(f, end), k), end)
            == Interrupted(Clipped(d, end), f, |ClipAll(d.chunks[..k], end)|)
    decreases |d.chunks| - k
  {
    hide ClipAll, Clip;
    if k == |d.chunks| {
      assert d.chunks[..k] == d.chunks;
    } else {
      var upTo, c := d.chunks[..k + 1], d.chunks[k];
      assert upTo == d.chunks[..k] + [c];
      ClipAllAppend(d.chunks[..k], c, end);
      ClipAllPrefix(d.chunks, k + 1, end);
      ClippedCalls(d, f, end, k + 1);
      OneCall(d, f, end, k, upTo);
    }
  }

  lemma OneCall(d: Delivery, f: Callback, end: nat, k: nat, upTo: seq<Chunk>)
    requires k < |d.chunks| && upTo == d.chunks[..k + 1] && ClipAll(upTo, end) <= ClipAll(d.chunks, end)
    requires ClipAll(d.chunks[..k], end) <= ClipAll(d.chunks, end)
    requires ClipAll(upTo, end)
             == ClipAll(d.chunks[..k], end) + (match Clip(d.chunks[k], end) case None => [] case Some(x) => [x])
    requires Clipped(Interrupted(d, Clipping(f, end), k + 1), end)
             == Interrupted(Clipped(d, end), f, |ClipAll(upTo, end)|)
    ensures Clipped(Interrupted(d, Clipping(f, end), k), end)
            == Interrupted(Clipped(d, end), f, |ClipAll(d.chunks[..k], end)|)
  {
    hide ClipAll, Clip;
    assert upTo[|upTo| - 1] == d.chunks[k];
    var n, all := |ClipAll(d.chunks[..k], end)|, ClipAll(d.chunks, end);
    if Clip(d.chunks[k], end).Some? {
      assert |ClipAll(upTo, end)| == n + 1;
      assert all[..n + 1] == ClipAll(upTo, end);
    }
  }

  /** `read_file` on an entry of the index. */
  method ReadFile(file: DvdbndFile, bdt: seq<byte>, store: seq<byte>, aes: Block -> Cipher, w: nat, offset: u64,
                  len: u32, f: Callback) returns (d: Delivery)
    requires w > 0 && Readable(file, w)
    requires Usable(KeyedFor(file, store, aes))
    ensures d == Called(ReadSpec(file, bdt, KeyedFor(file, store, aes), w, offset, len), f)
  {
    hide StreamRead, EncryptedSpec, Called;
    var fileLen := file.UnpaddedLen();
    var fileOffset: u32 := Min(offset, fileLen);
    var readLen: u32 := Min(len, fileLen - fileOffset);
    var dataStart: u64 := file.dataOffset + fileOffset;
    var end: u32 := fileOffset + readLen;
    if file.encryption.Some? {
      var keyed := Lookup(store, aes, file.encryption.value);
      d := ReadEncrypted(file, bdt, w, dataStart, readLen, keyed, fileOffset, f);
    } else {
      var stream := StreamRead(bdt, dataStart, readLen, file.dataOffset, file.len);
      d := ForwardClipped(stream, end, f);
    }
  }

  method ReadEncrypted(file: DvdbndFile, bdt: seq<byte>, w: nat, dataStart: nat, len: nat, keyed: Option<Keyed>,
                       ghost fo: nat, f: Callback) returns (d: Delivery)
    requires w > 0 && dataStart == file.dataOffset + fo && fo + len <= file.len && Usable(keyed) && Unrepaired(keyed)
    ensures d == Called(EncryptedSpec(file, bdt, keyed, w, fo, len), f)
  {
    hide Deliver, Interrupted, StreamWindows;
    var end := dataStart - file.dataOffset + len;
    var raw := ReadAndDecryptFile(file, bdt, w, dataStart, len, keyed, Clipping(f, end));
    d := Clipped(raw, end);
    ghost var total := Deliver(keyed, fo, end, StreamWindows(bdt, w, dataStart, len, file.dataOffset, file.len));
    assert total.chunks[..0] == [];
    ClipNothing(end);
    ClippedCalls(total, f, end, 0);
  }

  method ForwardClipped(stream: seq<Item>, end: nat, f: Callback) returns (d: Delivery)
    ensures d == Called(Clipped(Forward(stream), end), f)
  {
    hide Forward, ClipAll, Clip, Called, NoneFailed;
    var chunks: seq<Chunk> := [];
    ghost var raw: seq<Chunk> := [];
    ghost var total := Forward(stream);
    assert stream[0..] == stream && ClipAll([], end) == [] by { ClipNothing(end); }
    NothingCalled(f);
    for i := 0 to |stream|
      invariant total == Prepend(raw, Forward(stream[i..]))
      invariant chunks == ClipAll(raw, end) && NoneFailed(f, chunks)
    {
      ForwardStep(stream, i, raw);
      if stream[i].Failure? {
        CalledToTheEnd(Clipped(total, end), f);
        return Delivery(chunks, Failed(stream[i].error));
      }
      var c := Chunk(stream[i].bytes, stream[i].offset);
      ClipAllAppend(raw, c, end);
      raw := raw + [c];
      var kept := Clip(c, end);
      if kept.Some? {
        OneMoreCalled(f, chunks, kept.value);
        chunks := chunks + [kept.value];
        if f(chunks) {
          assert raw == total.chunks[..|raw|];
          ClipAllPrefix(total.chunks, |raw|, end);
          CalledUntil(Clipped(total, end), f, chunks);
          return Delivery(chunks, Failed(CallbackFailed));
        }
      }
    }
    ForwardStep(stream, |stream|, raw);
    CalledToTheEnd(Clipped(total, end), f);
    d := Delivery(chunks, Done);
  }

  lemma ClipNothing(end: nat)
    ensures ClipAll([], end) == []
  {
  }

  lemma ForwardStep(stream: seq<Item>, i: nat, raw: seq<Chunk>)
    requires i <= |stream|
    ensures Prepend(raw, Forward(stream[i..]))
            == if i == |stream| then Delivery(raw, Done)
               else if stream[i].Failure? then Delivery(raw, Failed(stream[i].error))
               else Prepend(raw + [Chunk(stream[i].bytes, stream[i].offset)], Forward(stream[i + 1..]))
  {
    assert raw + [] == raw;
    if i < |stream| {
      var rest := Forward(stream[i + 1..]);
      assert stream[i..][0] == stream[i] && stream[i..][1..] == stream[i + 1..];
      if stream[i].Buffer? {
        var c := Chunk(stream[i].bytes, stream[i].offset);
        assert raw + ([c] + rest.chunks) == (raw + [c]) + rest.chunks;
      }
    }
  }
}

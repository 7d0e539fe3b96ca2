/** Reads of unencrypted entries from the fields of their header entries, for archives of any length. */
module PlainReads {
  import opened Bytes
  import opened AlignedStream
  import opened Bhd5
  import opened Mount
  import opened Archive

  /** How many buffers come of the octets `pos..end` of an archive of `size` octets. */
  function BufferCount(size: nat, pos: nat, end: nat): nat {
    if pos >= end then 0
    else if end <= size then (end - pos + 32767) / 32768
    else if size <= pos then 0 else (size - pos) / 32768
  }

  /** Buffer `k` of the octets `pos..end`, with its offset in the file. */
  function BufferAt(bdt: seq<byte>, fileStart: nat, pos: nat, end: nat, k: nat): Chunk
    requires pos + 32768 * k <= |bdt|
  {
    var from := pos + 32768 * k;
    Chunk(bdt[from..Max(from, Min(Min(from + 32768, end), |bdt|))], from - fileStart)
  }

  /** The octets in buffers of 32768, the last one shorter; where the archive ends too early, the whole buffers
      before its end and then the failure. */
  predicate InBuffers(d: Delivery, bdt: seq<byte>, fileStart: nat, pos: nat, end: nat) {
    && d.end == (if pos >= end || end <= |bdt| then Done else Failed(UnexpectedEof))
    && |d.chunks| == BufferCount(|bdt|, pos, end)
    && forall k :: 0 <= k < |d.chunks| ==>
        pos + 32768 * k <= |bdt| && d.chunks[k] == BufferAt(bdt, fileStart, pos, end, k)
  }

  lemma NextBuffers(size: nat, pos: nat, end: nat)
    requires pos < end && Min(pos + 32768, end) <= size
    ensures BufferCount(size, pos, end) == 1 + BufferCount(size, pos + 32768, end)
  {
  }

  lemma FirstBuffer(d: Delivery, bdt: seq<byte>, fileStart: nat, pos: nat, end: nat)
    requires pos < end && Min(pos + 32768, end) <= |bdt| && InBuffers(d, bdt, fileStart, pos + 32768, end)
    ensures InBuffers(Prepend([Chunk(bdt[pos..Min(pos + 32768, end)], pos - fileStart)], d), bdt, fileStart, pos, end)
  {
    var first := Chunk(bdt[pos..Min(pos + 32768, end)], pos - fileStart);
    var all := Prepend([first], d);
    NextBuffers(|bdt|, pos, end);
    forall k | 0 <= k < |all.chunks|
      ensures pos + 32768 * k <= |bdt| && all.chunks[k] == BufferAt(bdt, fileStart, pos, end, k)
    {
      if k > 0 { assert all.chunks[k] == d.chunks[k - 1] == BufferAt(bdt, fileStart, pos + 32768, end, k - 1); }
    }
  }

  lemma {:induction false} ForwardInBuffers(bdt: seq<byte>, fileStart: nat, pos: nat, end: nat)
    requires fileStart <= pos && end < fileStart + U32_LIMIT
    ensures InBuffers(Forward(ReadAll(bdt, BodyPlan(pos, end), fileStart)), bdt, fileStart, pos, end)
    decreases Max(0, end - pos)
  {
    hide InBuffers;
    if pos >= end {
      assert InBuffers(Delivery([], Done), bdt, fileStart, pos, end) by { NoBuffers(bdt, fileStart, pos, end); }
    } else {
      var stop := Min(pos + 32768, end);
      var rest := ReadAll(bdt, BodyPlan(pos + 32768, end), fileStart);
      ForwardInBuffers(bdt, fileStart, pos + 32768, end);
      PlanStep(bdt, fileStart, pos, end);
      if stop <= |bdt| {
        ForwardOne(Buffer(bdt[pos..stop], pos - fileStart), rest);
        FirstBuffer(Forward(rest), bdt, fileStart, pos, end);
      } else {
        ForwardOne(Failure(UnexpectedEof), rest);
        CutShort(bdt, fileStart, pos, end);
      }
    }
  }

  lemma NoBuffers(bdt: seq<byte>, fileStart: nat, pos: nat, end: nat)
    requires pos >= end
    ensures InBuffers(Delivery([], Done), bdt, fileStart, pos, end)
  {
  }

  lemma CutShort(bdt: seq<byte>, fileStart: nat, pos: nat, end: nat)
    requires pos < end && Min(pos + 32768, end) > |bdt|
    ensures InBuffers(Delivery([], Failed(UnexpectedEof)), bdt, fileStart, pos, end)
  {
  }

  lemma PlanStep(bdt: seq<byte>, fileStart: nat, pos: nat, end: nat)
    requires fileStart <= pos < end < fileStart + U32_LIMIT
    ensures var stop := Min(pos + 32768, end);
            ReadAll(bdt, BodyPlan(pos, end), fileStart)
            == [if stop <= |bdt| then Buffer(bdt[pos..stop], pos - fileStart) else Failure(UnexpectedEof)]
               + ReadAll(bdt, BodyPlan(pos + 32768, end), fileStart)
  {
    var plan := BodyPlan(pos, end);
    assert plan[0] == Piece(Min(end - pos, 32768), pos) && plan[1..] == BodyPlan(pos + 32768, end);
  }

  lemma ForwardOne(item: Item, rest: seq<Item>)
    ensures Forward([item] + rest)
            == if item.Failure? then Delivery([], Failed(item.error))
               else Prepend([Chunk(item.bytes, item.offset)], Forward(rest))
  {
    assert ([item] + rest)[0] == item && ([item] + rest)[1..] == rest;
  }

  /** Chunks inside the request pass the closure unchanged. */
  lemma {:induction false} ClipKeeps(chunks: seq<Chunk>, to: u32)
    requires forall k :: 0 <= k < |chunks| ==>
               0 <= chunks[k].offset && chunks[k].bytes != [] && chunks[k].offset + |chunks[k].bytes| <= to
    ensures ClipAll(chunks, to) == chunks
  {
    if chunks == [] {
    } else {
      assert chunks[0].bytes[..|chunks[0].bytes|] == chunks[0].bytes;
      assert Clip(chunks[0], to) == Some(chunks[0]);
      ClipKeeps(chunks[1..], to);
    }
  }

  lemma BuffersInRequest(d: Delivery, bdt: seq<byte>, fileStart: nat, pos: nat, end: nat)
    requires fileStart <= pos && InBuffers(d, bdt, fileStart, pos, end)
    ensures forall k :: 0 <= k < |d.chunks| ==>
              && 0 <= d.chunks[k].offset && d.chunks[k].bytes != []
              && d.chunks[k].offset + |d.chunks[k].bytes| <= end - fileStart
  {
  }

  lemma PlainSlice(file: DvdbndFile, bdt: seq<byte>, fo: nat, l: nat)
    requires fo + l <= file.len
    ensures InBuffers(UnencryptedSpec(file, bdt, fo, l), bdt, file.dataOffset, file.dataOffset + fo,
                      file.dataOffset + fo + l)
  {
    hide Forward, InBuffers, ReadAll, BodyPlan, ClipAll;
    var pos := file.dataOffset + fo;
    var raw := Forward(StreamRead(bdt, pos, l, file.dataOffset, file.len));
    ForwardInBuffers(bdt, file.dataOffset, pos, pos + l);
    BuffersInRequest(raw, bdt, file.dataOffset, pos, pos + l);
    ClipKeeps(raw.chunks, fo + l);
  }

  /** A read of an unencrypted entry, for every archive. Where the entry states its unpadded size it is clipped
      to that, which only the last two layouts of entries do, and to the entry's size otherwise. The octets come
      in order, in buffers of 32768; from an archive that ends before them come the whole buffers before its
      end, and then the read fails. */
  lemma PlainRead(entry: FileEntry, header: Header, file: DvdbndFile, store: seq<byte>, bdt: seq<byte>, w: nat,
                  offset: u64, len: u32)
    requires entry.IsValid(header) && FileFor(entry, None, file, store)
    requires (w == 64 || w == 512) && entry.offset + entry.size + w < 0x1_0000_0000_0000_0000
    ensures Readable(file, w)
    ensures var n := if (entry.kind == Ds3 || entry.kind == Er) && entry.unpadded > 0 then entry.unpadded
            else entry.size;
            var from, to := Min(offset, n), Min(offset + len, n);
            InBuffers(ReadSpec(file, bdt, None, w, offset, len), bdt, entry.offset, entry.offset + from,
                      entry.offset + to)
  {
    hide InBuffers, UnencryptedSpec;
    AcceptedIsReadable(entry, header, None, file, store, w);
    PlainSlice(file, bdt, ClippedOffset(file, offset), ClippedLen(file, offset, len));
  }
}

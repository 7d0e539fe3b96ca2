/** Reads that give nothing: requests clipped to nothing, and the panic on empty entries. */
module EmptyReads {
  import opened Bytes
  import opened WindowDecryptor
  import opened CiphertextRing
  import opened AlignedStream
  import opened Mount
  import opened ReadTheorem

  lemma {:induction false} LoopNeverPanics(keyed: Option<Keyed>, start: nat, end: nat, items: seq<Item>, i: nat,
                                           prev: seq<byte>)
    requires Usable(keyed) && i <= |items|
    ensures DeliverFrom(keyed, start, end, items, i, prev).end != Panicked
    decreases |items| - i
  {
    hide DecryptWindow, HeadOf, TailOf;
    if i < |items| && items[i].Buffer? && (i + 1 < |items| ==> items[i + 1].Buffer?) {
      var (_, bytes) := StepOf(keyed, start, end, items[i].offset, items[i].bytes, prev, NextBytes(keyed, items, i));
      LoopNeverPanics(keyed, start, end, items, i + 1, Kept(keyed, items[i].bytes, bytes));
    }
  }

  lemma EmptyStreamIff(bdt: seq<byte>, w: nat, start: nat, l: nat, fileStart: nat, n: nat)
    requires IsWindowSize(w) && InBounds(start, l, fileStart, n) && n < U32_LIMIT && fileStart + n <= |bdt|
    ensures StreamWindows(bdt, w, start, l, fileStart, n) == [] <==> n == 0 && start < w
  {
    if FitsOneWindow(w, start, l) {
      OneWindowItems(bdt, w, start, l, fileStart, fileStart + n);
      hide HeadItems, TailItems;
    } else {
      ManyBufferItems(bdt, w, start, l, fileStart, n);
      hide StreamWindows, ReadAll, BodyPlan;
      BodyItemsEmptyIff(bdt, start, l, fileStart, n);
      ContextEmptyIff(bdt, w, start, l, fileStart, n);
      hide HeadItems, TailItems;
    }
  }

  lemma BodyItemsEmptyIff(bdt: seq<byte>, start: nat, l: nat, fileStart: nat, n: nat)
    requires InBounds(start, l, fileStart, n) && n < U32_LIMIT && fileStart + n <= |bdt|
    ensures ReadAll(bdt, BodyPlan(start, start + l), fileStart) == [] <==> l == 0
  {
    if l > 0 {
      ReadBodies(bdt, start, start + l, fileStart, bdt[fileStart..fileStart + n]);
    }
  }

  lemma ContextEmptyIff(bdt: seq<byte>, w: nat, start: nat, l: nat, fileStart: nat, n: nat)
    requires w > 0 && InBounds(start, l, fileStart, n) && fileStart + n <= |bdt| && !FitsOneWindow(w, start, l)
    ensures HeadItems(bdt, w, start, l, fileStart) == [] <==> start == fileStart
    ensures TailItems(bdt, w, start, l, fileStart, fileStart + n) == [] <==> start + l == fileStart + n
  {
  }

  /** An encrypted read panics exactly when the file is empty and lies within one window of the start of
      its archive: nothing at all is read then, and the ring has no current buffer. */
  lemma PanicsIff(file: DvdbndFile, bdt: seq<byte>, keyed: Option<Keyed>, w: nat, offset: u64, len: u32)
    requires IsWindowSize(w) && Readable(file, w) && file.dataOffset + file.len <= |bdt|
    requires file.encryption.Some? && Usable(keyed)
    ensures ReadSpec(file, bdt, keyed, w, offset, len).end == Panicked <==> file.len == 0 && file.dataOffset < w
  {
    hide StreamWindows, ClipAll, DeliverFrom;
    var fo, l := ClippedOffset(file, offset), ClippedLen(file, offset, len);
    var items := StreamWindows(bdt, w, file.dataOffset + fo, l, file.dataOffset, file.len);
    EmptyStreamIff(bdt, w, file.dataOffset + fo, l, file.dataOffset, file.len);
    if items != [] {
      LoopNeverPanics(keyed, fo, fo + l, items, 0, []);
    }
  }

  // ---- requests for nothing ----

  lemma {:induction false} EverythingSkipped(keyed: Option<Keyed>, at: nat, items: seq<Item>, i: nat, prev: seq<byte>)
    requires Usable(keyed) && i <= |items| && AllBuffers(items)
    ensures DeliverFrom(keyed, at, at, items, i, prev) == Delivery([], Done)
    decreases |items| - i
  {
    hide NextBytes, Kept;
    if i == |items| {
    } else {
      EverythingSkipped(keyed, at, items, i + 1, Kept(keyed, items[i].bytes, items[i].bytes));
    }
  }

  lemma EmptyRequestItems(bdt: seq<byte>, w: nat, start: nat, fileStart: nat, n: nat)
    requires IsWindowSize(w) && InBounds(start, 0, fileStart, n) && n < U32_LIMIT && fileStart + n <= |bdt|
    ensures AllBuffers(StreamWindows(bdt, w, start, 0, fileStart, n))
  {
    if FitsOneWindow(w, start, 0) {
      OneWindowItems(bdt, w, start, 0, fileStart, fileStart + n);
      hide StreamWindows, OneWindow;
    } else {
      ManyBufferItems(bdt, w, start, 0, fileStart, n);
      hide StreamWindows;
    }
  }

  /** A request that is clipped to nothing delivers nothing and ends without error, but for the panic. */
  lemma EmptyRequest(file: DvdbndFile, bdt: seq<byte>, keyed: Option<Keyed>, w: nat, offset: u64, len: u32)
    requires IsWindowSize(w) && Readable(file, w) && file.dataOffset + file.len <= |bdt|
    requires file.encryption.Some? && Usable(keyed) && ClippedLen(file, offset, len) == 0
    ensures ReadSpec(file, bdt, keyed, w, offset, len)
            == Delivery([], if file.len == 0 && file.dataOffset < w then Panicked else Done)
  {
    hide StreamWindows, DeliverFrom;
    var fo := ClippedOffset(file, offset);
    var items := StreamWindows(bdt, w, file.dataOffset + fo, 0, file.dataOffset, file.len);
    EmptyStreamIff(bdt, w, file.dataOffset + fo, 0, file.dataOffset, file.len);
    EmptyRequestItems(bdt, w, file.dataOffset + fo, file.dataOffset, file.len);
    EverythingSkipped(keyed, fo, items, 0, []);
  }
}

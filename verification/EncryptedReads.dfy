/** Reads of encrypted entries from the fields of their header entries and from the ranges that the header
    states, and how such reads end when the archive is too short or the id unknown. */
module EncryptedReads {
  import opened Bytes
  import opened BlockCipher
  import opened WindowDecryptor
  import opened WindowTheorem
  import opened AlignedStream
  import opened EncryptionRecords
  import opened StoredRanges
  import opened Bhd5
  import opened Mount
  import opened ReadTheorem
  import opened ReadExact
  import opened ReadEnds
  import opened Archive

  // ---- what is right ----

  predicate Inside(r: ArchiveRange, p: int) {
    r.start <= p < r.end
  }

  /** Octet `p` of an entry under the ranges of the header: its octet of its own block's decryption, blocks
      counted from the start of its range, or as it is. */
  predicate OctetDecrypted(out: seq<byte>, dec: Cipher, file: seq<byte>, rs: seq<ArchiveRange>, p: nat)
    requires p < |out| == |file|
  {
    && (forall r :: r in rs && Inside(r, p) ==>
          var b := r.start + (p - r.start) / 16 * 16;
          b + 16 <= |file| && out[p] == dec(file[b..b + 16])[p - b])
    && ((forall r :: r in rs ==> !Inside(r, p)) ==> out[p] == file[p])
  }

  predicate Decrypted(out: seq<byte>, dec: Cipher, file: seq<byte>, rs: seq<ArchiveRange>) {
    |out| == |file| && forall p :: 0 <= p < |file| ==> OctetDecrypted(out, dec, file, rs, p)
  }

  /** The stored ranges name those of the header, and those only. */
  ghost predicate SameRanges(rs: seq<ArchiveRange>, stored: seq<Range>) {
    forall t :: t in stored <==> exists r :: r in rs && Names(r, t)
  }

  /** A non-empty range of the header has its stored one. */
  lemma StoredOf(rs: seq<ArchiveRange>, stored: seq<Range>, r: ArchiveRange, n: nat) returns (t: Range)
    requires SameRanges(rs, stored) && r in rs && r.start < r.end && (r.end - r.start) % 16 == 0
    ensures t in stored && t.start == r.start && t.End() == r.end
  {
    t := Range(r.start, (r.end - r.start) / 16);
    assert Names(r, t);
  }

  predicate WholeBlocks(rs: seq<ArchiveRange>) {
    forall r :: r in rs && r.start < r.end ==> (r.end - r.start) % 16 == 0
  }

  lemma WholeFileOctet(dec: Cipher, file: seq<byte>, rs: seq<ArchiveRange>, stored: seq<Range>, p: nat)
    requires WellPlaced(stored, |file|) && SameRanges(rs, stored) && WholeBlocks(rs) && p < |file|
    ensures OctetDecrypted(WholeFile(dec, file, stored), dec, file, rs, p)
  {
    hide WholeFile, SameRanges, Plain, PlainByte, Range.End, Range.Has;
    WholeFileAt(dec, file, stored, p);
    PlainCases(dec, file, stored, p);
    forall r | r in rs && Inside(r, p)
      ensures var b := r.start + (p - r.start) / 16 * 16;
              b + 16 <= |file| && Plain(dec, file, stored, p) == dec(file[b..b + 16])[p - b]
    {
      assert (r.end - r.start) % 16 == 0;
      InsideOctet(dec, file, rs, stored, r, p);
    }
    if forall r :: r in rs ==> !Inside(r, p) {
      forall t | t in stored ensures !t.Has(p) { OutsideStored(rs, stored, t, p); }
    }
  }

  lemma InsideOctet(dec: Cipher, file: seq<byte>, rs: seq<ArchiveRange>, stored: seq<Range>, r: ArchiveRange, p: nat)
    requires WellPlaced(stored, |file|) && SameRanges(rs, stored) && p < |file|
    requires r in rs && Inside(r, p) && (r.end - r.start) % 16 == 0
    ensures var b := r.start + (p - r.start) / 16 * 16;
            b + 16 <= |file| && Plain(dec, file, stored, p) == dec(file[b..b + 16])[p - b]
  {
    hide SameRanges, Plain, WellPlaced, PlainByte;
    var t := StoredOf(rs, stored, r, |file|);
    EndsInside(stored, |file|, t);
    PlainInside(dec, file, stored, t, p);
  }

  lemma PlainInside(dec: Cipher, file: seq<byte>, stored: seq<Range>, t: Range, p: nat)
    requires WellPlaced(stored, |file|) && t in stored && t.Has(p) && t.End() <= |file|
    ensures p < |file|
    ensures var b := t.start + (p - t.start) / 16 * 16;
            b + 16 <= |file| && Plain(dec, file, stored, p) == dec(file[b..b + 16])[p - b]
  {
    hide Plain;
    PlainCases(dec, file, stored, p);
  }

  lemma OutsideStored(rs: seq<ArchiveRange>, stored: seq<Range>, t: Range, p: nat)
    requires SameRanges(rs, stored) && t in stored && forall r :: r in rs ==> !Inside(r, p)
    ensures !t.Has(p)
  {
    var r := HeaderOf(rs, stored, t);
    assert !Inside(r, p);
  }

  lemma EndsInside(stored: seq<Range>, n: nat, t: Range)
    requires WellPlaced(stored, n) && t in stored
    ensures t.End() <= n
  {
  }

  lemma HeaderOf(rs: seq<ArchiveRange>, stored: seq<Range>, t: Range) returns (r: ArchiveRange)
    requires SameRanges(rs, stored) && t in stored
    ensures r in rs && r.start < r.end && t.start == r.start && t.End() == r.end
  {
    r :| r in rs && Names(r, t);
  }

  /** There is one such plaintext, the reference. */
  lemma ReferenceIsDecrypted(out: seq<byte>, dec: Cipher, file: seq<byte>, rs: seq<ArchiveRange>, stored: seq<Range>)
    requires WellPlaced(stored, |file|) && SameRanges(rs, stored) && WholeBlocks(rs)
    ensures Decrypted(out, dec, file, rs) <==> out == WholeFile(dec, file, stored)
  {
    hide WholeFile, SameRanges, OctetDecrypted, WholeBlocks;
    var plain := WholeFile(dec, file, stored);
    forall p | 0 <= p < |file| ensures OctetDecrypted(plain, dec, file, rs, p) {
      WholeFileOctet(dec, file, rs, stored, p);
    }
    if Decrypted(out, dec, file, rs) {
      forall p | 0 <= p < |file| ensures out[p] == plain[p] { OneOctet(out, plain, dec, file, rs, p); }
    }
  }

  lemma OneOctet(a: seq<byte>, b: seq<byte>, dec: Cipher, file: seq<byte>, rs: seq<ArchiveRange>, p: nat)
    requires p < |a| == |b| == |file|
    requires OctetDecrypted(a, dec, file, rs, p) && OctetDecrypted(b, dec, file, rs, p)
    ensures a[p] == b[p]
  {
  }

  // ---- when it is ----

  /** The range goes on behind `b`, which cuts one of its blocks. */
  predicate CutAt(r: ArchiveRange, b: int) {
    r.start < b < r.end && (b - r.start) % 16 != 0
  }

  predicate InnerBoundary(b: nat, from: nat, to: nat) {
    from < b < to && (b - from) % 32768 == 0
  }

  /** No range has a block cut at a multiple of 32768 octets behind the start of the request, inside it; and a
      block cut at its start is the last one of its range in the first 32768 octets of it. */
  ghost predicate LayoutOk(rs: seq<ArchiveRange>, from: nat, to: nat) {
    && (forall r :: r in rs && CutAt(r, from) ==>
          Min(Min(to, from + 32768), r.end) - from <= 16 - (from - r.start) % 16)
    && (forall r, b: nat :: r in rs && InnerBoundary(b, from, to) ==> !CutAt(r, b))
  }

  lemma {:induction false} BoundariesIff(stored: seq<Range>, off: nat, to: nat)
    ensures BoundariesOk(AsWritten, stored, off, to)
            <==> forall b: nat :: InnerBoundary(b, off, to) ==> !CutsBlock(stored, b)
    decreases Max(0, to - off)
  {
    hide CutsBlock;
    if off + 32768 >= to {
    } else {
      var next := off + 32768;
      BoundariesIff(stored, next, to);
      assert forall b: nat :: InnerBoundary(b, off, to) <==> b == next || InnerBoundary(b, next, to);
    }
  }

  lemma CutsIff(rs: seq<ArchiveRange>, stored: seq<Range>, b: nat)
    requires SameRanges(rs, stored) && WholeBlocks(rs)
    ensures CutsBlock(stored, b) <==> exists r :: r in rs && CutAt(r, b)
  {
    hide SameRanges;
    if t :| t in stored && CutBy(t, b) { var r := HeaderOf(rs, stored, t); assert CutAt(r, b); }
    if r :| r in rs && CutAt(r, b) { var t := StoredOf(rs, stored, r, b); assert CutBy(t, b); }
  }

  lemma StartIff(rs: seq<ArchiveRange>, stored: seq<Range>, from: nat, to: nat)
    requires SameRanges(rs, stored) && WholeBlocks(rs) && from <= to
    ensures StartsCleanly(AsWritten, stored, from, Min(to - from, 32768))
            <==> forall r :: r in rs && CutAt(r, from) ==>
                   Min(Min(to, from + 32768), r.end) - from <= 16 - (from - r.start) % 16
  {
    hide SameRanges;
    if forall r :: r in rs && CutAt(r, from) ==>
         Min(Min(to, from + 32768), r.end) - from <= 16 - (from - r.start) % 16
    {
      forall t | t in stored && CutBy(t, from) ensures Min(Min(to - from, 32768), t.End() - from) <= 16 - Cut(from, t) {
        var r := HeaderOf(rs, stored, t);
        assert CutAt(r, from);
      }
    }
    if StartsCleanly(AsWritten, stored, from, Min(to - from, 32768)) {
      forall r | r in rs && CutAt(r, from)
        ensures Min(Min(to, from + 32768), r.end) - from <= 16 - (from - r.start) % 16
      {
        var t := StoredOf(rs, stored, r, from);
        assert CutBy(t, from);
      }
    }
  }

  /** The condition in the header's own numbers. */
  lemma LayoutIff(rs: seq<ArchiveRange>, stored: seq<Range>, from: nat, to: nat)
    requires SameRanges(rs, stored) && WholeBlocks(rs) && from <= to
    ensures RightLayout(AsWritten, stored, from, to - from) <==> LayoutOk(rs, from, to)
  {
    hide SameRanges, CutsBlock, CutAt, StartsCleanly, BoundariesOk;
    StartIff(rs, stored, from, to);
    BoundariesIff(stored, from, to);
    forall b: nat ensures CutsBlock(stored, b) <==> exists r :: r in rs && CutAt(r, b) { CutsIff(rs, stored, b); }
    SameBoundaries(rs, stored, from, to);
  }

  lemma SameBoundaries(rs: seq<ArchiveRange>, stored: seq<Range>, from: nat, to: nat)
    requires forall b: nat :: CutsBlock(stored, b) <==> exists r :: r in rs && CutAt(r, b)
    ensures (forall b: nat :: InnerBoundary(b, from, to) ==> !CutsBlock(stored, b))
            <==> (forall r, b: nat :: r in rs && InnerBoundary(b, from, to) ==> !CutAt(r, b))
  {
    hide CutsBlock, CutAt, InnerBoundary;
    if forall b: nat :: InnerBoundary(b, from, to) ==> !CutsBlock(stored, b) {
      forall r, b: nat | r in rs && InnerBoundary(b, from, to) ensures !CutAt(r, b) {
        assert !CutsBlock(stored, b);
      }
    }
  }

  /** No two non-empty ranges overlap, and none is longer than the entry. */
  predicate Separate(size: nat, rs: seq<ArchiveRange>) {
    && (forall i, j :: 0 <= i < j < |rs| && rs[i].start != rs[i].end && rs[j].start != rs[j].end ==>
          rs[i].end <= rs[j].start || rs[j].end <= rs[i].start)
    && (forall r :: r in rs ==> r.end - r.start <= size)
  }

  lemma SeparateMeans(size: u32, rs: seq<ArchiveRange>)
    requires Separate(size, rs) && RangesOk(size, rs)
    ensures Disjoint(rs) && NoneOversized(size, rs) && WholeBlocks(rs)
  {
    forall r | r in rs ensures r.Len() <= size && (r.start < r.end ==> (r.end - r.start) % 16 == 0) {
      LengthOf(size, rs, r);
    }
    hide RangesOk;
    forall r | r in rs ensures r.Len() != 0 <==> r.start != r.end { EmptyIff(r); }
    hide ArchiveRange.Len;
  }

  lemma LengthOf(size: u32, rs: seq<ArchiveRange>, r: ArchiveRange)
    requires RangesOk(size, rs) && r in rs && r.end - r.start <= size
    ensures r.Len() <= size && (r.start < r.end ==> (r.end - r.start) % 16 == 0)
  {
    var i :| 0 <= i < |rs| && rs[i] == r;
    assert RangeOk(size, rs[i].start, rs[i].end);
  }

  lemma EmptyIff(r: ArchiveRange)
    ensures r.Len() != 0 <==> r.start != r.end
  {
  }

  /** One archive that holds the entry, one block cipher, the plaintext: the requested octets of it come. */
  predicate ReadsPlain(entry: FileEntry, e: Encryption, file: DvdbndFile, store: seq<byte>, bdt: seq<byte>,
                       aes: Block -> Cipher, plain: seq<byte>, w: nat, offset: u64, len: u32, from: nat, to: nat)
    requires w > 0 && Readable(file, w) && 0 <= entry.size && from <= to <= entry.size
  {
    (&& entry.offset + entry.size <= |bdt|
     && Decrypted(plain, aes(e.key), bdt[entry.offset..entry.offset + entry.size], e.ranges)) ==>
      && Usable(KeyedFor(file, store, aes))
      && DoneAndCovers(ReadSpec(file, bdt, KeyedFor(file, store, aes), w, offset, len), plain, from, to)
  }

  /** Right for every block cipher, every archive and its plaintext. */
  ghost predicate AlwaysRead(entry: FileEntry, e: Encryption, file: DvdbndFile, store: seq<byte>, w: nat, offset: u64,
                             len: u32, from: nat, to: nat)
    requires w > 0 && Readable(file, w) && 0 <= entry.size && from <= to <= entry.size
  {
    forall aes: Block -> Cipher, bdt: seq<byte>, plain: seq<byte> ::
      ReadsPlain(entry, e, file, store, bdt, aes, plain, w, offset, len, from, to)
  }

  /** A non-empty read of an encrypted entry, clipped as that of an unencrypted one, delivers the requested octets
      of the plaintext, for every archive and block cipher, if and only if the ranges in the header lie right. */
  lemma EncryptedRead(entry: FileEntry, header: Header, e: Encryption, file: DvdbndFile, store: seq<byte>, w: nat,
                      offset: u64, len: u32, from: nat, to: nat)
    requires entry.IsValid(header) && FileFor(entry, Some(e), file, store) && Separate(entry.size, e.ranges)
    requires (w == 64 || w == 512) && entry.offset + entry.size + w < 0x1_0000_0000_0000_0000
    requires var n := if (entry.kind == Ds3 || entry.kind == Er) && entry.unpadded > 0 then entry.unpadded
                      else entry.size;
             from == Min(offset, n) < to == Min(offset + len, n)
    ensures Readable(file, w) && to <= entry.size
    ensures AlwaysRead(entry, e, file, store, w, offset, len, from, to) <==> LayoutOk(e.ranges, from, to)
  {
    hide Disjoint, NoneOversized, Separate, FindsRecord, LayoutOk, RightLayout, WellPlaced, EntryRead, AlwaysRead;
    AcceptedIsReadable(entry, header, Some(e), file, store, w);
    StoredSeparate(entry, e, file, store);
    EncryptedEntryRightIff(entry, header, e, file, store, w, offset, len);
    EntryRangesSame(file, e);
    LayoutIff(e.ranges, EntryRanges(file, e), from, to);
    assert ClippedOffset(file, offset) == from && ClippedLen(file, offset, len) == to - from;
    AlwaysIff(entry, e, file, store, w, offset, len, from, to);
  }

  lemma StoredSeparate(entry: FileEntry, e: Encryption, file: DvdbndFile, store: seq<byte>)
    requires FileFor(entry, Some(e), file, store) && Separate(Max(entry.size, 0), e.ranges)
    ensures file.encryption.Some? && RecordFor(file.len, e, IndexFromId(file.encryption.value)).Stored?
    ensures Disjoint(e.ranges) && NoneOversized(file.len, e.ranges) && WholeBlocks(e.ranges)
  {
    hide RecordFor, Separate, Disjoint, NoneOversized, WholeBlocks, Decode;
    StoredIff(file.len, e, IndexFromId(file.encryption.value));
    SeparateMeans(file.len, e.ranges);
  }

  lemma EntryRangesSame(file: DvdbndFile, e: Encryption)
    requires file.encryption.Some? && RecordFor(file.len, e, IndexFromId(file.encryption.value)).Stored?
    requires Disjoint(e.ranges) && NoneOversized(file.len, e.ranges)
    ensures SameRanges(e.ranges, EntryRanges(file, e)) && WellPlaced(EntryRanges(file, e), file.len)
  {
    hide RecordFor, Disjoint, NoneOversized, WellPlaced, Names;
    EntryRangesPlaced(file, e);
  }

  lemma AlwaysIff(entry: FileEntry, e: Encryption, file: DvdbndFile, store: seq<byte>, w: nat, offset: u64, len: u32,
                  from: nat, to: nat)
    requires w > 0 && Readable(file, w) && 0 <= entry.size && from <= to <= entry.size
    requires FileFor(entry, Some(e), file, store) && WellPlaced(EntryRanges(file, e), file.len)
    requires SameRanges(e.ranges, EntryRanges(file, e)) && WholeBlocks(e.ranges)
    requires from == ClippedOffset(file, offset) && to == from + ClippedLen(file, offset, len)
    ensures AlwaysRead(entry, e, file, store, w, offset, len, from, to)
            <==> EntryAlwaysRight(file, e, store, w, offset, len)
  {
    hide WellPlaced, SameRanges, WholeBlocks, OctetDecrypted, WholeFile, RecordFor, Decode, EntryRead, DoneAndCovers,
        ReadSpec, KeyedFor, Usable, EntryRanges, ClippedOffset, ClippedLen;
    if EntryAlwaysRight(file, e, store, w, offset, len) {
      forall aes: Block -> Cipher, bdt: seq<byte>, plain: seq<byte>
        ensures ReadsPlain(entry, e, file, store, bdt, aes, plain, w, offset, len, from, to)
      {
        if && entry.offset + entry.size <= |bdt|
           && Decrypted(plain, aes(e.key), bdt[entry.offset..entry.offset + entry.size], e.ranges)
        {
          FiledIsUsable(entry, Some(e), file, store, aes);
          assert EntryRead(file, e, store, bdt, aes, w, offset, len);
          OneRead(entry, e, file, store, bdt, aes, plain, w, offset, len, from, to);
        }
      }
    }
    if AlwaysRead(entry, e, file, store, w, offset, len, from, to) {
      forall aes: Block -> Cipher, bdt: seq<byte> | file.dataOffset + file.len <= |bdt|
        ensures EntryRead(file, e, store, bdt, aes, w, offset, len)
      {
        var plain := PlaintextExists(file, e, bdt, aes(e.key));
        assert Decrypted(plain, aes(e.key), bdt[entry.offset..entry.offset + entry.size], e.ranges);
        FiledIsUsable(entry, Some(e), file, store, aes);
        assert ReadsPlain(entry, e, file, store, bdt, aes, plain, w, offset, len, from, to);
        OneRead(entry, e, file, store, bdt, aes, plain, w, offset, len, from, to);
      }
    }
  }

  lemma PlaintextExists(file: DvdbndFile, e: Encryption, bdt: seq<byte>, dec: Cipher) returns (plain: seq<byte>)
    requires file.dataOffset + file.len <= |bdt| && file.encryption.Some?
    requires RecordFor(file.len, e, IndexFromId(file.encryption.value)).Stored?
    requires WellPlaced(EntryRanges(file, e), file.len)
    requires SameRanges(e.ranges, EntryRanges(file, e)) && WholeBlocks(e.ranges)
    ensures Decrypted(plain, dec, bdt[file.dataOffset..file.dataOffset + file.len], e.ranges)
  {
    hide SameRanges, WholeBlocks, Decrypted, WholeFile, EntryRanges, RecordFor;
    var bytes := FileBytes(file, bdt);
    plain := WholeFile(dec, bytes, EntryRanges(file, e));
    ReferenceIsDecrypted(plain, dec, bytes, e.ranges, EntryRanges(file, e));
  }

  lemma OneRead(entry: FileEntry, e: Encryption, file: DvdbndFile, store: seq<byte>, bdt: seq<byte>,
                aes: Block -> Cipher, plain: seq<byte>, w: nat, offset: u64, len: u32, from: nat, to: nat)
    requires w > 0 && Readable(file, w) && 0 <= entry.size && from <= to <= entry.size
    requires FileFor(entry, Some(e), file, store) && WellPlaced(EntryRanges(file, e), file.len)
    requires SameRanges(e.ranges, EntryRanges(file, e)) && WholeBlocks(e.ranges)
    requires from == ClippedOffset(file, offset) && to == from + ClippedLen(file, offset, len)
    requires entry.offset + entry.size <= |bdt|
    requires Decrypted(plain, aes(e.key), bdt[entry.offset..entry.offset + entry.size], e.ranges)
    requires Usable(KeyedFor(file, store, aes))
    ensures EntryRead(file, e, store, bdt, aes, w, offset, len)
            <==> DoneAndCovers(ReadSpec(file, bdt, KeyedFor(file, store, aes), w, offset, len), plain, from, to)
  {
    hide SameRanges, WholeBlocks, Decrypted, WholeFile, DoneAndCovers, ReadSpec, KeyedFor, Usable,
        EntryRanges, ClippedOffset, ClippedLen, RecordFor, Decode;
    var bytes := FileBytes(file, bdt);
    ReferenceIsDecrypted(plain, aes(e.key), bytes, e.ranges, EntryRanges(file, e));
    RecordKey(file.len, e, IndexFromId(file.encryption.value));
  }

  /** The id of a filed entry finds its key, and its ranges with start and number of blocks. */
  lemma FiledRecord(entry: FileEntry, e: Encryption, file: DvdbndFile, store: seq<byte>)
    requires FileFor(entry, Some(e), file, store)
    ensures file.encryption.Some? && Decode(store, file.encryption.value).Some?
    ensures Decode(store, file.encryption.value).value.key == e.key
    ensures RangesStored(e.ranges, Decode(store, file.encryption.value).value.ranges)
  {
    hide RecordFor, Decode, RangesStored;
    StoredContents(file.len, e, IndexFromId(file.encryption.value));
  }

  /** Whatever its layout, a non-empty read of an encrypted entry succeeds exactly when the archive holds the request
      and, as far as the entry goes, the window behind it; otherwise it fails at the archive's end. */
  lemma EncryptedEntryEnds(entry: FileEntry, header: Header, e: Encryption, file: DvdbndFile, store: seq<byte>,
                           bdt: seq<byte>, aes: Block -> Cipher, w: nat, offset: u64, len: u32, from: nat, to: nat)
    requires entry.IsValid(header) && FileFor(entry, Some(e), file, store)
    requires (w == 64 || w == 512) && entry.offset + entry.size + w < 0x1_0000_0000_0000_0000
    requires var n := if (entry.kind == Ds3 || entry.kind == Er) && entry.unpadded > 0 then entry.unpadded
                      else entry.size;
             from == Min(offset, n) < to == Min(offset + len, n)
    ensures Readable(file, w) && Usable(KeyedFor(file, store, aes))
    ensures ReadSpec(file, bdt, KeyedFor(file, store, aes), w, offset, len).end
            == if entry.offset + Min(to + w, entry.size) <= |bdt| then Done else Failed(UnexpectedEof)
  {
    hide FindsRecord, EncryptedSpec, Usable;
    AcceptedIsReadable(entry, header, Some(e), file, store, w);
    FiledIsUsable(entry, Some(e), file, store, aes);
    FiledRecord(entry, e, file, store);
    hide FileFor, Decode;
    var k := KeyedFor(file, store, aes).value;
    EncryptedReadEnds(file, bdt, k, w, from, to - from);
  }
}

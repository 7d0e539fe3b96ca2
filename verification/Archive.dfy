/** From the entries of an archive header to the files of the index, and what reads of those deliver. */
module Archive {
  import opened Bytes
  import opened BlockCipher
  import opened WindowDecryptor
  import opened WindowTheorem
  import opened AlignedStream
  import opened Unaligned
  import opened EncryptionRecords
  import opened Bhd5
  import opened Mount
  import opened ReadTheorem
  import opened ReadWitness
  import opened EmptyReads
  import opened StoredRanges

  /** `file` stands for `entry`: its place and sizes, and an id that finds its own record in the store. */
  predicate FileFor(entry: FileEntry, e: Option<Encryption>, file: DvdbndFile, store: seq<byte>) {
    && file.dataOffset == entry.offset && file.len == entry.FileSize() && file.unpadded == entry.UnpaddedSize()
    && match e
       case None => file.encryption == None
       case Some(enc) => file.encryption.Some? && FindsRecord(file.len, enc, file.encryption.value, store)
  }

  predicate FindsRecord(fileSize: u32, e: Encryption, id: u32, store: seq<byte>) {
    var rec := RecordFor(fileSize, e, IndexFromId(id));
    rec.Stored? && Decode(store, id) == Some(rec.value)
  }

  predicate FilesFor(entries: seq<FileEntry>, encryption: seq<Option<Encryption>>, files: seq<DvdbndFile>,
                     store: seq<byte>) {
    && |files| <= |entries| && |files| <= |encryption|
    && forall i :: 0 <= i < |files| ==> FileFor(entries[i], encryption[i], files[i], store)
  }

  /** What later records leave of an earlier file. */
  lemma FilesForGrows(entries: seq<FileEntry>, encryption: seq<Option<Encryption>>, files: seq<DvdbndFile>,
                      store: seq<byte>, more: seq<byte>)
    requires FilesFor(entries, encryption, files, store)
    ensures FilesFor(entries, encryption, files, store + more)
  {
    hide Decode, RecordFor;
    forall i | 0 <= i < |files| ensures FileFor(entries[i], encryption[i], files[i], store + more) {
      if encryption[i].Some? { AppendKeepsRecords(store, more, files[i].encryption.value); }
    }
  }

  lemma NewRecordFinds(fileSize: u32, e: Encryption, store: seq<byte>, id: u32)
    requires IndexFromId(id) == |store| && RecordFor(fileSize, e, |store|).Stored?
    ensures FindsRecord(fileSize, e, id, store + EncodeRecord(RecordFor(fileSize, e, |store|).value))
  {
    hide Decode, EncodeRecord;
    var rec := RecordFor(fileSize, e, |store|).value;
    assert IdFromIndex(|store|) == Some(id);
    StoredRecordFound(fileSize, e, store, [], id);
    assert store + EncodeRecord(rec) + [] == store + EncodeRecord(rec);
  }

  /** How many octets the records of these take. */
  function StoredSize(encryption: seq<Option<Encryption>>): nat
    decreases |encryption|
  {
    if encryption == [] then 0
    else
      var last := encryption[|encryption| - 1];
      StoredSize(encryption[..|encryption| - 1]) + if last.Some? then 20 + 8 * NonEmpty(last.value.ranges) else 0
  }

  /** Entry `i` is not refused: its encryption, if it has one, is in order for a file of its size, behind the
      records of the entries before it. */
  predicate EntryAccepted(entries: seq<FileEntry>, encryption: seq<Option<Encryption>>, i: nat)
    requires i < |entries| && i < |encryption|
  {
    encryption[i].Some? ==>
      Admissible(if entries[i].size < 0 then 0 else entries[i].size, encryption[i].value.ranges,
                 StoredSize(encryption[..i]))
  }

  predicate AcceptedUpTo(entries: seq<FileEntry>, encryption: seq<Option<Encryption>>, n: nat)
    requires n <= |entries| && n <= |encryption|
  {
    forall i :: 0 <= i < n ==> EntryAccepted(entries, encryption, i)
  }

  lemma SizeGrows(encryption: seq<Option<Encryption>>, i: nat)
    requires i < |encryption|
    ensures StoredSize(encryption[..i + 1])
            == StoredSize(encryption[..i])
               + if encryption[i].Some? then 20 + 8 * NonEmpty(encryption[i].value.ranges) else 0
  {
    assert encryption[..i + 1][..i] == encryption[..i];
  }

  /** `process_files`: a file for every entry, with its encryption stored. The first refusal ends it, with
      the entries before it filed in the store as it then is. */
  method ProcessFiles(entries: seq<FileEntry>, encryption: seq<Option<Encryption>>)
    returns (r: StoreResult<seq<DvdbndFile>>, store: seq<byte>, ghost filed: seq<DvdbndFile>)
    ensures FilesFor(entries, encryption, filed, store)
    ensures r.Stored? ==> r.value == filed
    ensures r.Stored? ==> |r.value| == Min(|entries|, |encryption|) && FilesFor(entries, encryption, r.value, store)
    ensures r.Stored? <==> AcceptedUpTo(entries, encryption, Min(|entries|, |encryption|))
    ensures r.Refused? ==> |filed| < |entries| && |filed| < |encryption|
                           && !EntryAccepted(entries, encryption, |filed|) && encryption[|filed|].Some?
                           && RecordFor(entries[|filed|].FileSize(), encryption[|filed|].value, |store|)
                              == Refused(r.error)
  {
    hide FileFor, RecordFor, EncodeRecord, Admissible, StoredSize, RangesStored, Fault, FirstBad;
    assert StoredSize(encryption[..0]) == 0 by { NothingStored(); }
    var records := new RecordStore();
    var files: seq<DvdbndFile> := [];
    for i := 0 to Min(|entries|, |encryption|)
      invariant records.Valid() && fresh(records)
      invariant |files| == i && FilesFor(entries, encryption, files, records.out)
      invariant |records.out| == StoredSize(encryption[..i]) && AcceptedUpTo(entries, encryption, i)
    {
      SizeGrows(encryption, i);
      ghost var before := records.out;
      var id: Option<u32> := None;
      if encryption[i].Some? {
        var stored := records.StoreEncryption(entries[i].FileSize(), encryption[i].value);
        if stored.Refused? {
          assert !EntryAccepted(entries, encryption, i);
          return Refused(stored.error), records.out, files;
        }
        id := Some(stored.value);
        FilesForGrows(entries, encryption, files, before, records.out[|before|..]);
        assert before + records.out[|before|..] == records.out;
        NewRecordFinds(entries[i].FileSize(), encryption[i].value, before, stored.value);
      }
      var file := DvdbndFile(entries[i].offset, entries[i].FileSize(), entries[i].UnpaddedSize(), id);
      OneMoreFile(entries, encryption, files, records.out, file);
      files := files + [file];
    }
    r, store, filed := Stored(files), records.out, files;
  }

  lemma NothingStored()
    ensures StoredSize([]) == 0
  {
  }

  lemma OneMoreFile(entries: seq<FileEntry>, encryption: seq<Option<Encryption>>, files: seq<DvdbndFile>,
                    store: seq<byte>, file: DvdbndFile)
    requires FilesFor(entries, encryption, files, store) && |files| < |entries| && |files| < |encryption|
    requires var entry, e := entries[|files|], encryption[|files|];
             && file.dataOffset == entry.offset && file.len == entry.FileSize() && file.unpadded == entry.UnpaddedSize()
             && (e.None? <==> file.encryption.None?)
             && (e.Some? ==> FindsRecord(file.len, e.value, file.encryption.value, store))
    ensures FilesFor(entries, encryption, files + [file], store)
  {
    hide FindsRecord;
    assert FileFor(entries[|files|], encryption[|files|], file, store);
  }

  /** An accepted entry never trips the assertions of a read, offsets that do not overflow given. */
  lemma AcceptedIsReadable(entry: FileEntry, header: Header, e: Option<Encryption>, file: DvdbndFile, store: seq<byte>,
                           w: nat)
    requires entry.IsValid(header) && FileFor(entry, e, file, store) && entry.offset + file.len + w < U64_LIMIT
    ensures Readable(file, w)
  {
    hide FindsRecord;
  }

  /** An accepted range ends below 2^32, even one that is longer than its file. */
  lemma AcceptedEndFits(fileSize: u32, r: ArchiveRange)
    requires Accepted(fileSize, r)
    ensures StoredAs(r).End() < U32_LIMIT
  {
    StoredFaithfullyIff(fileSize, r);
  }

  /** Whatever record the store accepts can be decrypted with: its ranges are sorted, and no end of one
      overflows, ranges that overlap or are longer than their file included. */
  lemma StoredIsUsable(fileSize: u32, e: Encryption, index: nat, dec: Cipher)
    requires RecordFor(fileSize, e, index).Stored?
    ensures Usable(Some(Keyed(dec, RecordFor(fileSize, e, index).value.ranges, AsWritten)))
  {
    var rs := ConvertAll(fileSize, e.ranges).value;
    SortContents(rs);
    ConvertedContents(fileSize, e.ranges);
    hide SortByEnd, ConvertAll, Convert, Accepted, StoredAs, SortedByEnd;
    forall t | t in SortByEnd(rs) ensures t.End() < U32_LIMIT {
      var r :| r in e.ranges && r.Len() != 0 && StoredAs(r) == t;
      AcceptedEndFits(fileSize, r);
    }
  }

  /** The file of an entry can be read with what the store holds for it. */
  lemma FiledIsUsable(entry: FileEntry, e: Option<Encryption>, file: DvdbndFile, store: seq<byte>, aes: Block -> Cipher)
    requires FileFor(entry, e, file, store)
    ensures Usable(KeyedFor(file, store, aes))
  {
    hide Usable, RecordFor, Decode;
    if e.Some? {
      var index := IndexFromId(file.encryption.value);
      StoredIsUsable(file.len, e.value, index, aes(RecordFor(file.len, e.value, index).value.key));
    } else {
      NothingIsUsable();
    }
  }

  lemma NothingIsUsable()
    ensures Usable(None)
  {
  }

  /** A read of an accepted, unencrypted entry delivers the requested octets of the archive. */
  lemma PlainEntryRead(entry: FileEntry, header: Header, file: DvdbndFile, store: seq<byte>, bdt: seq<byte>,
                       w: nat, offset: u64, len: u32)
    requires entry.IsValid(header) && FileFor(entry, None, file, store)
    requires IsWindowSize(w) && entry.offset + file.len + w < U64_LIMIT && entry.offset + file.len <= |bdt|
    ensures Readable(file, w)
    ensures var n := if (entry.kind == Ds3 || entry.kind == Er) && entry.unpadded > 0 then entry.unpadded
            else entry.size;
            var from, to := Min(offset, n), Min(offset + len, n);
            DoneAndCovers(ReadSpec(file, bdt, None, w, offset, len), bdt[entry.offset..entry.offset + entry.size], from,
                          to)
  {
    hide Covers, UnencryptedSpec, EncryptedSpec;
    AcceptedIsReadable(entry, header, None, file, store, w);
    UnencryptedRead(file, bdt, w, offset, len);
  }

  /** What a request of an encrypted entry should be given: the requested octets of the entry, decrypted
      under its own key in its own ranges. */
  predicate EntryRead(file: DvdbndFile, e: Encryption, store: seq<byte>, bdt: seq<byte>, aes: Block -> Cipher,
                      w: nat, offset: u64, len: u32)
    requires w > 0 && Readable(file, w) && file.dataOffset + file.len <= |bdt|
    requires file.encryption.Some? && FindsRecord(file.len, e, file.encryption.value, store)
    requires WellPlaced(EntryRanges(file, e), file.len)
  {
    var keyed := KeyedFor(file, store, aes);
    var fo, l := ClippedOffset(file, offset), ClippedLen(file, offset, len);
    PlacedIsUsable(Keyed(aes(e.key), EntryRanges(file, e), AsWritten), file.len);
    RecordKey(file.len, e, IndexFromId(file.encryption.value));
    DoneAndCovers(ReadSpec(file, bdt, keyed, w, offset, len),
                  WholeFile(aes(e.key), FileBytes(file, bdt), EntryRanges(file, e)),
                  fo, fo + l)
  }

  /** The ranges stored for an entry. */
  function EntryRanges(file: DvdbndFile, e: Encryption): seq<Range>
    requires file.encryption.Some? && RecordFor(file.len, e, IndexFromId(file.encryption.value)).Stored?
  {
    RecordFor(file.len, e, IndexFromId(file.encryption.value)).value.ranges
  }

  lemma RecordKey(fileSize: u32, e: Encryption, index: nat)
    requires RecordFor(fileSize, e, index).Stored?
    ensures RecordFor(fileSize, e, index).value.key == e.key
  {
  }

  /** The entry's own ranges are stored, ready for decryption. */
  lemma EntryRangesPlaced(file: DvdbndFile, e: Encryption)
    requires file.encryption.Some? && RecordFor(file.len, e, IndexFromId(file.encryption.value)).Stored?
    requires Disjoint(e.ranges) && NoneOversized(file.len, e.ranges)
    ensures WellPlaced(EntryRanges(file, e), file.len)
    ensures forall t :: t in EntryRanges(file, e) <==> exists r :: r in e.ranges && Names(r, t)
  {
    StoredRangesWellPlaced(file.len, e, IndexFromId(file.encryption.value));
  }

  /** A read through the store is the read with the entry's own key and ranges. */
  lemma ReadThroughStore(file: DvdbndFile, e: Encryption, store: seq<byte>, bdt: seq<byte>, aes: Block -> Cipher,
                         w: nat, offset: u64, len: u32)
    requires w > 0 && Readable(file, w) && file.dataOffset + file.len <= |bdt|
    requires file.encryption.Some? && FindsRecord(file.len, e, file.encryption.value, store)
    requires WellPlaced(EntryRanges(file, e), file.len)
    ensures var fo, l := ClippedOffset(file, offset), ClippedLen(file, offset, len);
            EntryRead(file, e, store, bdt, aes, w, offset, len)
            <==> DeliversPlain(file, bdt, Keyed(aes(e.key), EntryRanges(file, e), AsWritten), w, fo, l)
  {
    hide WholeFile, Decode, DoneAndCovers, WellPlaced, StreamWindows, Deliver, RecordFor;
    RecordKey(file.len, e, IndexFromId(file.encryption.value));
  }

  /** Right for every block cipher and every archive that holds the entry. */
  ghost predicate EntryAlwaysRight(file: DvdbndFile, e: Encryption, store: seq<byte>, w: nat, offset: u64, len: u32)
    requires w > 0 && Readable(file, w)
    requires file.encryption.Some? && FindsRecord(file.len, e, file.encryption.value, store)
    requires WellPlaced(EntryRanges(file, e), file.len)
  {
    forall aes: Block -> Cipher, bdt: seq<byte> | file.dataOffset + file.len <= |bdt| ::
      EntryRead(file, e, store, bdt, aes, w, offset, len)
  }

  /** A non-empty read of an accepted, encrypted entry delivers the requested octets, decrypted under the
      entry's key in the entry's ranges, whatever other entries the store was filled with, if and only if the
      layout is right. */
  lemma EncryptedEntryRightIff(entry: FileEntry, header: Header, e: Encryption, file: DvdbndFile, store: seq<byte>,
                               w: nat, offset: u64, len: u32)
    requires entry.IsValid(header) && FileFor(entry, Some(e), file, store)
    requires IsWindowSize(w) && entry.offset + file.len + w < U64_LIMIT
    requires Disjoint(e.ranges) && NoneOversized(file.len, e.ranges) && ClippedLen(file, offset, len) > 0
    ensures Readable(file, w) && WellPlaced(EntryRanges(file, e), file.len)
    ensures EntryAlwaysRight(file, e, store, w, offset, len) <==>
            RightLayout(AsWritten, EntryRanges(file, e), ClippedOffset(file, offset), ClippedLen(file, offset, len))
  {
    hide RightLayout, WellPlaced, Names, RecordFor, Disjoint, NoneOversized, DeliversPlain, EntryRead, Decode,
        FileEntry.IsValid;
    AcceptedIsReadable(entry, header, Some(e), file, store, w);
    EntryRangesPlaced(file, e);
    var rs, fo, l := EntryRanges(file, e), ClippedOffset(file, offset), ClippedLen(file, offset, len);
    hide EntryRanges;
    if RightLayout(AsWritten, rs, fo, l) {
      forall aes: Block -> Cipher, bdt: seq<byte> | file.dataOffset + file.len <= |bdt|
        ensures EntryRead(file, e, store, bdt, aes, w, offset, len)
      {
        EncryptedReadIsPlain(file, bdt, Keyed(aes(e.key), rs, AsWritten), w, fo, l);
        ReadThroughStore(file, e, store, bdt, aes, w, offset, len);
      }
    } else if EntryAlwaysRight(file, e, store, w, offset, len) {
      var aes: Block -> Cipher, bdt := _ => Marker, Zeros(file.dataOffset + file.len);
      assert EntryRead(file, e, store, bdt, aes, w, offset, len);
      ReadThroughStore(file, e, store, bdt, aes, w, offset, len);
      RightDeliveryNeedsRightLayout(file, rs, w, fo, l);
    }
  }

  /** An empty entry at the start of the archive, whose encryption, read at its offset in the header, has
      only one empty range, and its file. */
  predicate EmptyEntry(order: Order, bytes: seq<byte>, header: Header, entry: FileEntry, e: Encryption,
                       file: DvdbndFile, store: seq<byte>) {
    && header.hasCrypto && header.fileSize > 0
    && entry.offset == 0 && entry.size == 0 && entry.unpadded == 0 && entry.hashOffset == 0
    && entry.encryptionOffset < header.fileSize
    && EncryptionOf(order, bytes, entry) == Some(Some(e)) && e.ranges == [ArchiveRange(0, 0)]
    && file == DvdbndFile(0, 0, 0, IdFromIndex(0)) && store == EncodeRecord(Record(e.key, []))
  }

  /** A case in point: such an entry is accepted and gets an id, and every read of it panics. */
  lemma EmptyEntryPanics(order: Order, bytes: seq<byte>, header: Header, entry: FileEntry, e: Encryption,
                         file: DvdbndFile, store: seq<byte>, bdt: seq<byte>, aes: Block -> Cipher, w: nat,
                         offset: u64, len: u32)
    requires EmptyEntry(order, bytes, header, entry, e, file, store) && IsWindowSize(w)
    ensures entry.IsValid(header) && FileFor(entry, Some(e), file, store)
    ensures Readable(file, w) && Usable(KeyedFor(file, store, aes))
    ensures ReadSpec(file, bdt, KeyedFor(file, store, aes), w, offset, len) == Delivery([], Panicked)
  {
    EmptyEntryFiled(order, bytes, header, entry, e, file, store);
    FiledIsUsable(entry, Some(e), file, store, aes);
    hide KeyedFor, FileFor, Usable, EncodeRecord, EncryptionOf, ReadSpec;
    EmptyRequest(file, bdt, KeyedFor(file, store, aes), w, offset, len);
  }

  lemma EmptyEntryFiled(order: Order, bytes: seq<byte>, header: Header, entry: FileEntry, e: Encryption,
                        file: DvdbndFile, store: seq<byte>)
    requires EmptyEntry(order, bytes, header, entry, e, file, store)
    ensures entry.IsValid(header) && FileFor(entry, Some(e), file, store)
  {
    EmptyRecord(e);
    hide Decode, EncodeRecord, RecordFor, EncryptionOf, FindsRecord;
    NewRecordFinds(0, e, [], file.encryption.value);
    assert [] + store == store;
  }

  /** There is such an entry, in either byte order: its encryption stands at 64 in a header of 100 octets. */
  lemma EmptyEntryOf(order: Order, key: Block, front: seq<byte>)
    requires |front| == 64
    ensures var e := Encryption(key, [ArchiveRange(0, 0)]);
            var bytes := front + WriteEncryption(order, e);
            && |bytes| == 100
            && EmptyEntry(order, bytes, Header(true, 100), FileEntry(Er, 0, 0, 0, 0, 64), e,
                          DvdbndFile(0, 0, 0, IdFromIndex(0)), EncodeRecord(Record(key, [])))
  {
    var e := Encryption(key, [ArchiveRange(0, 0)]);
    EncryptionRoundTrip(order, e, front, []);
    hide ReadEncryption, EncodeRecord, Order.Write, WriteRanges;
    assert front + WriteEncryption(order, e) + [] == front + WriteEncryption(order, e);
    assert |order.Write(1, 4)| == 4;
  }

  lemma EmptyRecord(e: Encryption)
    requires e.ranges == [ArchiveRange(0, 0)]
    ensures RecordFor(0, e, 0) == Stored(Record(e.key, []))
    ensures SortedByEnd([])
  {
    var rs := e.ranges;
    assert rs[..0] == [];
    assert ConvertAll(0, rs) == ConvertAll(0, rs[..0]);
  }
}

/** The archive header: which file entries the parser accepts, and the encryption data they point to. */
module Bhd5 {
  import opened Bytes
  import opened Octets
  import opened Unaligned
  import opened EncryptionRecords

  const I32_LIMIT := 0x8000_0000

  type i32 = x: int | -I32_LIMIT <= x < I32_LIMIT

  datatype Header = Header(hasCrypto: bool, fileSize: u32)

  /** The layouts of file entries. Those of the first have no encryption and no hash; neither those nor
      those of the second have an unpadded size. */
  datatype EntryKind = Ds | Ds2 | Ds3 | Er

  datatype FileEntry = FileEntry(kind: EntryKind, offset: u64, size: i32, unpadded: i32, hashOffset: u64,
                                 encryptionOffset: u64) {
    function FileSize(): u32 { Max(size, 0) }

    /** Zero where the entry states none. */
    function UnpaddedSize(): u32 {
      if kind == Ds || kind == Ds2 then 0 else Max(unpadded, 0)
    }

    function EncryptionAt(): Option<u64> {
      if kind == Ds || encryptionOffset == 0 then None else Some(encryptionOffset)
    }

    predicate CryptoOffsetsOk(header: Header) {
      if header.hasCrypto then encryptionOffset < header.fileSize && hashOffset < header.fileSize
      else encryptionOffset == 0 && hashOffset == 0
    }

    /** An entry on its own. */
    predicate IsValid(header: Header) {
      match kind
      case Ds => size >= 0
      case Ds2 => size >= 0 && CryptoOffsetsOk(header)
      case _ => size >= 0 && unpadded >= 0 && size >= unpadded && CryptoOffsetsOk(header)
    }
  }

  /** Every entry is valid on its own, and at most one starts at offset 0. */
  predicate AllValid(entries: seq<FileEntry>, header: Header) {
    && (forall i :: 0 <= i < |entries| ==> entries[i].IsValid(header))
    && (forall i, j :: 0 <= i < j < |entries| ==> entries[i].offset != 0 || entries[j].offset != 0)
  }

  class FileEntryValidator {
    var hasOffset0: bool
    /** The entries let through so far. */
    ghost var passed: seq<FileEntry>

    ghost predicate Valid(header: Header)
      reads this
    {
      AllValid(passed, header) && (hasOffset0 <==> exists i :: 0 <= i < |passed| && passed[i].offset == 0)
    }

    constructor (ghost header: Header)
      ensures Valid(header) && passed == []
    {
      hasOffset0 := false;
      passed := [];
    }

    /** Accepts an entry exactly when all those accepted and this one are valid together. */
    method IsValid(entry: FileEntry, header: Header) returns (ok: bool)
      requires Valid(header)
      modifies this
      ensures ok <==> AllValid(old(passed) + [entry], header)
      ensures ok ==> Valid(header) && passed == old(passed) + [entry]
    {
      hide FileEntry.IsValid;
      var isOffset0, had := entry.offset == 0, hasOffset0;
      OneMoreValid(passed, entry, header);
      hasOffset0 := had || isOffset0;
      if isOffset0 && had {
        return false;
      }
      ok := entry.IsValid(header);
      if ok {
        StartsAtZero(passed, entry);
        passed := passed + [entry];
      }
    }
  }

  lemma StartsAtZero(entries: seq<FileEntry>, entry: FileEntry)
    ensures var grown := entries + [entry];
            (exists i :: 0 <= i < |grown| && grown[i].offset == 0)
            <==> entry.offset == 0 || exists i :: 0 <= i < |entries| && entries[i].offset == 0
  {
    var grown := entries + [entry];
    assert grown[|entries|] == entry && forall i :: 0 <= i < |entries| ==> grown[i] == entries[i];
  }

  lemma OneMoreValid(entries: seq<FileEntry>, entry: FileEntry, header: Header)
    requires AllValid(entries, header)
    ensures AllValid(entries + [entry], header) <==>
              entry.IsValid(header) && (entry.offset == 0 ==> forall i :: 0 <= i < |entries| ==> entries[i].offset != 0)
  {
    hide FileEntry.IsValid;
    var grown := entries + [entry];
    assert grown[|entries|] == entry && forall i :: 0 <= i < |entries| ==> grown[i] == entries[i];
  }

  lemma SomeInvalid(entries: seq<FileEntry>, more: seq<FileEntry>, header: Header)
    requires !AllValid(entries, header)
    ensures !AllValid(entries + more, header)
  {
    hide FileEntry.IsValid;
    assert forall i :: 0 <= i < |entries| ==> (entries + more)[i] == entries[i];
  }

  /** The entries of one bucket, up to the first that is refused. */
  method ValidateBucket(validator: FileEntryValidator, bucket: seq<FileEntry>, header: Header) returns (ok: bool)
    requires validator.Valid(header)
    modifies validator
    ensures ok ==> validator.Valid(header) && validator.passed == old(validator.passed) + bucket
    ensures !ok ==> !AllValid(old(validator.passed) + bucket, header)
  {
    hide AllValid;
    ghost var before := validator.passed;
    assert before + bucket[..0] == before;
    for j := 0 to |bucket|
      invariant validator.Valid(header) && validator.passed == before + bucket[..j]
    {
      assert (before + bucket[..j]) + [bucket[j]] == before + bucket[..j + 1];
      ok := validator.IsValid(bucket[j], header);
      if !ok {
        SomeInvalid(before + bucket[..j + 1], bucket[j + 1..], header);
        assert (before + bucket[..j + 1]) + bucket[j + 1..] == before + bucket;
        return;
      }
    }
    assert bucket[..|bucket|] == bucket;
    ok := true;
  }

  /** The entries of the buckets, where all of them could be read from the file. */
  function Present<T>(buckets: seq<Option<seq<T>>>): Option<seq<T>> {
    if buckets == [] then Some([])
    else
      var rest := Present(buckets[1..]);
      if buckets[0].None? || rest.None? then None else Some(buckets[0].value + rest.value)
  }

  lemma PresentFrom<T>(buckets: seq<Option<seq<T>>>, i: nat)
    requires i <= |buckets|
    ensures buckets[0..] == buckets
    ensures Present(buckets[i..]) == if i == |buckets| then Some([])
                                     else if buckets[i].None? || Present(buckets[i + 1..]).None? then None
                                     else Some(buckets[i].value + Present(buckets[i + 1..]).value)
  {
    if i < |buckets| { assert buckets[i..][1..] == buckets[i + 1..]; }
  }

  /** Whether the buckets are accepted: all are there, and their entries are valid together. */
  predicate Acceptable(buckets: seq<Option<seq<FileEntry>>>, header: Header) {
    Present(buckets).Some? && AllValid(Present(buckets).value, header)
  }

  /** The run goes on behind the entries that passed. */
  ghost predicate Behind(buckets: seq<Option<seq<FileEntry>>>, passed: seq<FileEntry>, i: nat, header: Header)
    requires i <= |buckets|
  {
    Acceptable(buckets, header)
    <==> Present(buckets[i..]).Some? && AllValid(passed + Present(buckets[i..]).value, header)
  }

  lemma BehindNothing(buckets: seq<Option<seq<FileEntry>>>, header: Header)
    ensures Behind(buckets, [], 0, header)
  {
    hide AllValid, Present;
    PresentFrom(buckets, 0);
    if Present(buckets).Some? { assert [] + Present(buckets).value == Present(buckets).value; }
  }

  lemma BehindOneMore(buckets: seq<Option<seq<FileEntry>>>, passed: seq<FileEntry>, i: nat, header: Header)
    requires i < |buckets| && Behind(buckets, passed, i, header)
    ensures buckets[i].None? ==> !Acceptable(buckets, header)
    ensures buckets[i].Some? ==> Behind(buckets, passed + buckets[i].value, i + 1, header)
    ensures buckets[i].Some? && !AllValid(passed + buckets[i].value, header) ==> !Acceptable(buckets, header)
  {
    hide AllValid, Present, Acceptable;
    PresentFrom(buckets, i);
    if buckets[i].Some? && Present(buckets[i + 1..]).Some? {
      var rest := Present(buckets[i + 1..]).value;
      assert passed + (buckets[i].value + rest) == (passed + buckets[i].value) + rest;
      if !AllValid(passed + buckets[i].value, header) { SomeInvalid(passed + buckets[i].value, rest, header); }
    }
  }

  lemma BehindAll(buckets: seq<Option<seq<FileEntry>>>, passed: seq<FileEntry>, header: Header)
    requires Behind(buckets, passed, |buckets|, header) && AllValid(passed, header)
    ensures Acceptable(buckets, header)
  {
    hide AllValid, Acceptable;
    PresentFrom(buckets, |buckets|);
    assert passed + [] == passed;
  }

  /** The validator's run over all buckets, some of which may lie outside the file: accepted if and only if
      all are there and the entries of all of them together are valid. */
  method ValidateBuckets(buckets: seq<Option<seq<FileEntry>>>, header: Header) returns (ok: bool)
    ensures ok <==> Acceptable(buckets, header)
  {
    hide AllValid, Present, Behind, Acceptable, FileEntryValidator.Valid;
    var validator := new FileEntryValidator(header);
    BehindNothing(buckets, header);
    for i := 0 to |buckets|
      invariant validator.Valid(header) && fresh(validator)
      invariant Behind(buckets, validator.passed, i, header)
    {
      BehindOneMore(buckets, validator.passed, i, header);
      if buckets[i].None? {
        return false;
      }
      ok := ValidateBucket(validator, buckets[i].value, header);
      if !ok {
        return;
      }
    }
    EntriesValid(validator, header);
    BehindAll(buckets, validator.passed, header);
    ok := true;
  }

  lemma EntriesValid(validator: FileEntryValidator, header: Header)
    requires validator.Valid(header)
    ensures AllValid(validator.passed, header)
  {
  }

  // ---- encryption data ----

  lemma OffsetBound(order: Order, s: seq<byte>)
    requires |s| == LIMB_SIZE
    ensures order.Read(s) < U64_LIMIT
  {
    LeBound(s);
    BeValueBound(s);
    LimbIsEightOctets();
  }

  const ENCRYPTION_HEADER_LEN := 20
  const RANGE_LEN := 16

  function ReadRanges(order: Order, s: seq<byte>, n: nat): (rs: seq<ArchiveRange>)
    requires RANGE_LEN * n <= |s|
    ensures |rs| == n
  {
    if n == 0 then []
    else
      OffsetBound(order, s[..8]);
      OffsetBound(order, s[8..16]);
      [ArchiveRange(order.Read(s[..8]), order.Read(s[8..16]))] + ReadRanges(order, s[RANGE_LEN..], n - 1)
  }

  /** A key, a signed count of ranges and the ranges; refused where the file ends or the count is negative. */
  function ReadEncryption(order: Order, bytes: seq<byte>, offset: nat): Option<Encryption> {
    if |bytes| < offset + ENCRYPTION_HEADER_LEN then None
    else
      var data := bytes[offset..];
      var count := order.Read(data[16..20]);
      if count >= I32_LIMIT || |data| - ENCRYPTION_HEADER_LEN < RANGE_LEN * count then None
      else Some(Encryption(data[..16], ReadRanges(order, data[ENCRYPTION_HEADER_LEN..], count)))
  }

  function WriteRanges(order: Order, rs: seq<ArchiveRange>): (s: seq<byte>)
    ensures |s| == RANGE_LEN * |rs|
  {
    if rs == [] then [] else order.Write(rs[0].start, 8) + order.Write(rs[0].end, 8) + WriteRanges(order, rs[1..])
  }

  function WriteEncryption(order: Order, e: Encryption): seq<byte> {
    e.key + order.Write(|e.ranges|, 4) + WriteRanges(order, e.ranges)
  }

  lemma RangeFields(start: seq<byte>, end: seq<byte>, rest: seq<byte>, more: seq<byte>)
    requires |start| == |end| == 8
    ensures var s := start + end + rest + more; s[..8] == start && s[8..16] == end && s[16..] == rest + more
  {
  }

  lemma OffsetRoundTrip(order: Order, v: u64)
    ensures order.Read(order.Write(v, 8)) == v
  {
    WordRoundTrip(order, v, 8);
    LimbIsEightOctets();
    SmallMod(v, U64_LIMIT);
  }

  lemma {:induction false} ArchiveRangesRoundTrip(order: Order, rs: seq<ArchiveRange>, more: seq<byte>)
    ensures ReadRanges(order, WriteRanges(order, rs) + more, |rs|) == rs
  {
    hide Order.Read, Order.Write;
    if rs == [] {
    } else {
      RangeFields(order.Write(rs[0].start, 8), order.Write(rs[0].end, 8), WriteRanges(order, rs[1..]), more);
      OffsetRoundTrip(order, rs[0].start);
      OffsetRoundTrip(order, rs[0].end);
      ArchiveRangesRoundTrip(order, rs[1..], more);
      assert rs == [rs[0]] + rs[1..];
    }
  }

  lemma EncryptionFields(front: seq<byte>, key: seq<byte>, count: seq<byte>, rest: seq<byte>, more: seq<byte>)
    requires |key| == 16 && |count| == 4
    ensures var data := (front + (key + count + rest) + more)[|front|..];
            data[..16] == key && data[16..20] == count && data[ENCRYPTION_HEADER_LEN..] == rest + more
  {
    assert (front + (key + count + rest) + more)[|front|..] == key + count + rest + more;
  }

  /** Encryption data is read back in either byte order, wherever it stands in the file. */
  lemma EncryptionRoundTrip(order: Order, e: Encryption, front: seq<byte>, more: seq<byte>)
    requires |e.ranges| < I32_LIMIT
    ensures ReadEncryption(order, front + WriteEncryption(order, e) + more, |front|) == Some(e)
  {
    hide Order.Read, Order.Write, ReadRanges, WriteRanges;
    EncryptionFields(front, e.key, order.Write(|e.ranges|, 4), WriteRanges(order, e.ranges), more);
    CountRoundTrip(order, |e.ranges|);
    ArchiveRangesRoundTrip(order, e.ranges, more);
  }

  lemma CountRoundTrip(order: Order, n: nat)
    requires n < I32_LIMIT
    ensures order.Read(order.Write(n, 4)) == n
  {
    WordRoundTrip(order, n, 4);
    PowersOf256();
    SmallMod(n, U32_LIMIT);
  }

  /** What one entry's encryption is: nothing, or what is read at its offset; `None` is a failure. */
  function EncryptionOf(order: Order, bytes: seq<byte>, entry: FileEntry): Option<Option<Encryption>> {
    match entry.EncryptionAt()
    case None => Some(None)
    case Some(at) =>
      match ReadEncryption(order, bytes, at)
      case None => None
      case Some(e) => Some(Some(e))
  }

  /** `try_ref_encryption`: all of them, or a failure exactly when one fails. */
  method TryRefEncryption(order: Order, bytes: seq<byte>, entries: seq<FileEntry>)
      returns (r: Option<seq<Option<Encryption>>>)
    ensures r.None? <==> exists i :: 0 <= i < |entries| && EncryptionOf(order, bytes, entries[i]) == None
    ensures r.Some? ==> |r.value| == |entries|
    ensures r.Some? ==> forall i :: 0 <= i < |entries| ==> EncryptionOf(order, bytes, entries[i]) == Some(r.value[i])
  {
    hide ReadEncryption;
    var all: seq<Option<Encryption>> := [];
    for i := 0 to |entries|
      invariant |all| == i && forall j :: 0 <= j < i ==> EncryptionOf(order, bytes, entries[j]) == Some(all[j])
    {
      var at := entries[i].EncryptionAt();
      if at.None? {
        all := all + [None];
        continue;
      }
      var e := ReadEncryption(order, bytes, at.value);
      if e.None? {
        return None;
      }
      all := all + [Some(e.value)];
    }
    r := Some(all);
  }
}

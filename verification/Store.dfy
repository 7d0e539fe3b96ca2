/** The encryption records of one archive: keys and ranges packed behind each other in one byte
    vector, found again by ids that never change while the vector grows. */
module EncryptionRecords {
  import opened Bytes
  import opened BlockCipher
  import opened Unaligned
  import Sorting

  /** A range as the archive states it: 64-bit offsets, end exclusive. */
  datatype ArchiveRange = ArchiveRange(start: u64, end: u64) {
    /** `end.wrapping_sub(start)`. */
    function Len(): (n: u64) { (end as int - start as int) % U64_LIMIT }
  }

  datatype Encryption = Encryption(key: Block, ranges: seq<ArchiveRange>)

  datatype StoreError = TooManyRanges | BadRange(start: u64, end: u64) | OobRange(start: u64, end: u64)

  datatype StoreResult<+T> = Stored(value: T) | Refused(error: StoreError)

  datatype Record = Record(key: Block, ranges: seq<Range>)

  const U24_MAX := 0xFF_FFFF
  const HEADER_LEN := 20
  const AES_128_ECB_NONE: byte := 0

  /** `index ^ u32::MAX`, refused when it is zero or does not fit 32 bits. */
  function IdFromIndex(index: nat): Option<u32> {
    if index < U32_LIMIT - 1 then Some(U32_LIMIT - 1 - index) else None
  }

  function IndexFromId(id: u32): nat {
    U32_LIMIT - 1 - id
  }

  /** Exclusive-or with all ones is subtraction from all ones. */
  lemma XorAllOnes(x: bv32)
    ensures x ^ 0xFFFF_FFFF == 0xFFFF_FFFF - x
  {
  }

  /** The checks on one range; an empty one is dropped. */
  function Convert(fileSize: u32, r: ArchiveRange): StoreResult<Option<Range>> {
    var len := r.Len();
    if len == 0 then Stored(None)
    else if r.start > r.end || len % BLOCK_SIZE != 0 then Refused(BadRange(r.start, r.end))
    else if r.start > Max(0, fileSize - len) then Refused(OobRange(r.start, r.end))
    else Stored(Some(Range(r.start, len % U32_LIMIT / BLOCK_SIZE)))
  }

  function ConvertAll(fileSize: u32, rs: seq<ArchiveRange>): StoreResult<seq<Range>>
    decreases |rs|
  {
    if rs == [] then Stored([])
    else
      var before := ConvertAll(fileSize, rs[..|rs| - 1]);
      if before.Refused? then before
      else
        match Convert(fileSize, rs[|rs| - 1])
        case Refused(e) => Refused(e)
        case Stored(None) => before
        case Stored(Some(r)) => Stored(before.value + [r])
  }

  function ByEnd(): (Range, Range) -> bool {
    (r: Range, t: Range) => r.End() < t.End()
  }

  /** `sort_by_key(end_offset)`, which is stable. */
  function SortByEnd(rs: seq<Range>): seq<Range> {
    Sorting.Sort(rs, ByEnd())
  }

  function EncodeRanges(rs: seq<Range>): (s: seq<byte>)
    ensures |s| == 8 * |rs|
  {
    if rs == [] then [] else ToLe(rs[0].start, 4) + ToLe(rs[0].count, 4) + EncodeRanges(rs[1..])
  }

  function DecodeRanges(s: seq<byte>, n: nat): (rs: seq<Range>)
    requires 8 * n <= |s|
    ensures |rs| == n
  {
    if n == 0 then [] else [Range(FromLe(s[..4]), FromLe(s[4..8]))] + DecodeRanges(s[8..], n - 1)
  }

  function EncodeRecord(rec: Record): (s: seq<byte>)
    ensures |s| == HEADER_LEN + 8 * |rec.ranges|
  {
    [AES_128_ECB_NONE] + rec.key + ToLe(|rec.ranges|, 3) + EncodeRanges(rec.ranges)
  }

  /** What `decrypt` reads from the store for an id; `None` is its error for a bad id. */
  function Decode(store: seq<byte>, id: u32): Option<Record> {
    var index := IndexFromId(id);
    if index > |store| then None
    else DecodeAt(store[index..])
  }

  function DecodeAt(data: seq<byte>): Option<Record> {
    if |data| < HEADER_LEN || data[0] != AES_128_ECB_NONE then None
    else
      var count := FromLe(data[17..20]);
      if |data| - HEADER_LEN < 8 * count then None
      else Some(Record(data[1..17], DecodeRanges(data[HEADER_LEN..], count)))
  }

  /** What one call appends. */
  function RecordFor(fileSize: u32, e: Encryption, index: nat): StoreResult<Record> {
    match ConvertAll(fileSize, e.ranges)
    case Refused(err) => Refused(err)
    case Stored(rs) =>
      if |rs| > U24_MAX || IdFromIndex(index).None? then Refused(TooManyRanges)
      else Stored(Record(e.key, SortByEnd(rs)))
  }

  /** Offsets and counts that fit the four octets they are stored in. */
  predicate Storable(rs: seq<Range>) {
    forall r :: r in rs ==> r.start < U32_LIMIT && r.count < U32_LIMIT
  }

  lemma Fields(start: seq<byte>, count: seq<byte>, rest: seq<byte>, more: seq<byte>)
    requires |start| == |count| == 4
    ensures var s := start + count + rest + more; s[..4] == start && s[4..8] == count && s[8..] == rest + more
  {
  }

  lemma HeaderFields(tag: byte, key: Block, count: seq<byte>, rest: seq<byte>, more: seq<byte>)
    requires |count| == 3
    ensures var s := [tag] + key + count + rest + more;
            s[0] == tag && s[1..17] == key && s[17..20] == count && s[HEADER_LEN..] == rest + more
  {
  }

  lemma {:induction false} RangesRoundTrip(rs: seq<Range>, more: seq<byte>)
    requires Storable(rs)
    ensures DecodeRanges(EncodeRanges(rs) + more, |rs|) == rs
  {
    if rs == [] {
    } else {
      Fields(ToLe(rs[0].start, 4), ToLe(rs[0].count, 4), EncodeRanges(rs[1..]), more);
      RangesRoundTrip(rs[1..], more);
      assert rs[0] in rs;
      WidthsHold(rs[0].start);
      WidthsHold(rs[0].count);
      assert rs == [rs[0]] + rs[1..];
    }
  }

  /** A record reads back as itself, whatever follows it. */
  lemma RecordRoundTrip(rec: Record, more: seq<byte>)
    requires Storable(rec.ranges) && |rec.ranges| <= U24_MAX
    ensures DecodeAt(EncodeRecord(rec) + more) == Some(rec)
  {
    HeaderFields(AES_128_ECB_NONE, rec.key, ToLe(|rec.ranges|, 3), EncodeRanges(rec.ranges), more);
    WidthsHold(|rec.ranges|);
    RangesRoundTrip(rec.ranges, more);
  }

  lemma {:induction false} DecodeRangesPrefix(s: seq<byte>, more: seq<byte>, n: nat)
    requires 8 * n <= |s|
    ensures DecodeRanges(s + more, n) == DecodeRanges(s, n)
  {
    if n == 0 {
    } else {
      assert (s + more)[..4] == s[..4] && (s + more)[4..8] == s[4..8] && (s + more)[8..] == s[8..] + more;
      DecodeRangesPrefix(s[8..], more, n - 1);
    }
  }

  /** Appending to the store changes no record an id already finds. */
  lemma AppendKeepsRecords(store: seq<byte>, more: seq<byte>, id: u32)
    requires Decode(store, id).Some?
    ensures Decode(store + more, id) == Decode(store, id)
  {
    var data := store[IndexFromId(id)..];
    assert (store + more)[IndexFromId(id)..] == data + more;
    assert (data + more)[1..17] == data[1..17] && (data + more)[17..20] == data[17..20];
    assert (data + more)[HEADER_LEN..] == data[HEADER_LEN..] + more;
    DecodeRangesPrefix(data[HEADER_LEN..], more, FromLe(data[17..20]));
  }

  lemma SortContents(rs: seq<Range>)
    ensures multiset(SortByEnd(rs)) == multiset(rs) && SortedByEnd(SortByEnd(rs))
    ensures |SortByEnd(rs)| == |rs|
    ensures forall r :: r in SortByEnd(rs) <==> r in rs
  {
    Sorting.SortContents(rs, ByEnd());
    Sorting.SortOrders(rs, ByEnd());
    var sorted := SortByEnd(rs);
    forall i, j | 0 <= i < j < |sorted| ensures sorted[i].End() <= sorted[j].End() {
      assert !ByEnd()(sorted[j], sorted[i]);
    }
  }

  /** The ranges that end at `end`, in order. */
  function EndingAt(rs: seq<Range>, end: nat): seq<Range> {
    if rs == [] then []
    else EndingAt(rs[..|rs| - 1], end) + if rs[|rs| - 1].End() == end then [rs[|rs| - 1]] else []
  }

  lemma EndingAtOneMore(rs: seq<Range>, r: Range, end: nat)
    ensures EndingAt(rs + [r], end) == EndingAt(rs, end) + if r.End() == end then [r] else []
  {
    assert (rs + [r])[..|rs|] == rs;
  }

  lemma {:induction false} InsertIsStable(r: Range, rs: seq<Range>, end: nat)
    ensures EndingAt(Sorting.Insert(r, rs, ByEnd()), end) == EndingAt(rs, end) + if r.End() == end then [r] else []
  {
    if rs == [] {
      assert [] + [r] == [r];
      EndingAtOneMore([], r, end);
    } else {
      var front, last := rs[..|rs| - 1], rs[|rs| - 1];
      if ByEnd()(r, last) {
        InsertIsStable(r, front, end);
        EndingAtOneMore(Sorting.Insert(r, front, ByEnd()), last, end);
      } else {
        EndingAtOneMore(rs, r, end);
      }
    }
  }

  /** Sorting keeps the order of ranges that end at the same place. */
  lemma {:induction false} SortIsStable(rs: seq<Range>, end: nat)
    ensures EndingAt(SortByEnd(rs), end) == EndingAt(rs, end)
  {
    if rs == [] {
    } else {
      SortIsStable(rs[..|rs| - 1], end);
      InsertIsStable(rs[|rs| - 1], SortByEnd(rs[..|rs| - 1]), end);
    }
  }

  lemma {:induction false} ConvertedAreStorable(fileSize: u32, rs: seq<ArchiveRange>)
    requires ConvertAll(fileSize, rs).Stored?
    ensures Storable(ConvertAll(fileSize, rs).value)
    decreases |rs|
  {
    if rs == [] {
    } else {
      ConvertedAreStorable(fileSize, rs[..|rs| - 1]);
    }
  }

  // ---- which encryption is accepted ----

  /** Empty, or of whole blocks and inside the file, or from the file's start on. */
  predicate RangeOk(fileSize: u32, start: u64, end: u64) {
    start == end || (start < end && (end - start) % 16 == 0 && (end <= fileSize || start == 0))
  }

  predicate RangesOk(fileSize: u32, rs: seq<ArchiveRange>) {
    forall i :: 0 <= i < |rs| ==> RangeOk(fileSize, rs[i].start, rs[i].end)
  }

  /** How many ranges are not empty. */
  function NonEmpty(rs: seq<ArchiveRange>): nat
    decreases |rs|
  {
    if rs == [] then 0 else NonEmpty(rs[..|rs| - 1]) + if rs[|rs| - 1].start == rs[|rs| - 1].end then 0 else 1
  }

  /** Range `i` is the first that is not in order. */
  predicate FirstBad(fileSize: u32, rs: seq<ArchiveRange>, i: nat) {
    i < |rs| && RangesOk(fileSize, rs[..i]) && !RangeOk(fileSize, rs[i].start, rs[i].end)
  }

  /** What is wrong with it. */
  function Fault(r: ArchiveRange): StoreError {
    if r.start > r.end || (r.end - r.start) % 16 != 0 then BadRange(r.start, r.end) else OobRange(r.start, r.end)
  }

  lemma OneRange(fileSize: u32, r: ArchiveRange)
    ensures Convert(fileSize, r).Stored? <==> RangeOk(fileSize, r.start, r.end)
    ensures Convert(fileSize, r) == Stored(None) <==> r.start == r.end
    ensures Convert(fileSize, r).Refused? ==> Convert(fileSize, r).error == Fault(r)
  {
  }

  lemma {:induction false} AllRanges(fileSize: u32, rs: seq<ArchiveRange>)
    ensures ConvertAll(fileSize, rs).Stored? <==> RangesOk(fileSize, rs)
    ensures ConvertAll(fileSize, rs).Stored? ==> |ConvertAll(fileSize, rs).value| == NonEmpty(rs)
    decreases |rs|
  {
    hide Convert, RangeOk;
    if rs == [] {
    } else {
      var front, last := rs[..|rs| - 1], rs[|rs| - 1];
      assert rs == front + [last];
      AllRanges(fileSize, front);
      OneRange(fileSize, last);
    }
  }

  /** Stored exactly when every range is in order, at most 0xFFFFFF are not empty, and what is stored already
      leaves room for one more index. */
  predicate Admissible(fileSize: u32, rs: seq<ArchiveRange>, size: nat) {
    RangesOk(fileSize, rs) && NonEmpty(rs) <= 0xFF_FFFF && size < 0xFFFF_FFFF
  }

  lemma StoredIff(fileSize: u32, e: Encryption, index: nat)
    ensures RecordFor(fileSize, e, index).Stored? <==> Admissible(fileSize, e.ranges, index)
    ensures RangesOk(fileSize, e.ranges) && RecordFor(fileSize, e, index).Refused? ==>
              RecordFor(fileSize, e, index).error == TooManyRanges
  {
    hide ConvertAll, RangesOk;
    AllRanges(fileSize, e.ranges);
  }

  /** The first range that is not in order is what a refusal names. */
  lemma FirstBadIsNamed(fileSize: u32, e: Encryption, index: nat, i: nat)
    requires FirstBad(fileSize, e.ranges, i)
    ensures RecordFor(fileSize, e, index) == Refused(Fault(e.ranges[i]))
  {
    hide Convert, RangeOk, Fault;
    AllRanges(fileSize, e.ranges[..i]);
    OneRange(fileSize, e.ranges[i]);
    var upTo := e.ranges[..i + 1];
    assert upTo[..|upTo| - 1] == e.ranges[..i] && upTo[|upTo| - 1] == e.ranges[i];
    RefusedPrefix(fileSize, e.ranges, i + 1);
  }

  lemma NameRefusal(fileSize: u32, e: Encryption, index: nat)
    ensures forall i: nat | i < |e.ranges| && FirstBad(fileSize, e.ranges, i) ::
              RecordFor(fileSize, e, index) == Refused(Fault(e.ranges[i]))
  {
    hide FirstBad, RecordFor;
    forall i: nat | i < |e.ranges| && FirstBad(fileSize, e.ranges, i)
      ensures RecordFor(fileSize, e, index) == Refused(Fault(e.ranges[i]))
    {
      FirstBadIsNamed(fileSize, e, index, i);
    }
  }

  /** What an accepted encryption is stored as: its non-empty ranges with start and number of blocks, as many,
      sorted by end. */
  ghost predicate RangesStored(rs: seq<ArchiveRange>, stored: seq<Range>) {
    && |stored| == NonEmpty(rs) && SortedByEnd(stored)
    && (forall t :: t in stored <==> exists r :: r in rs && StoredRange(r, t))
  }

  predicate StoredRange(r: ArchiveRange, t: Range) {
    r.start < r.end && t == Range(r.start, (r.end - r.start) % 0x1_0000_0000 / 16)
  }

  lemma StoredContents(fileSize: u32, e: Encryption, index: nat)
    requires RecordFor(fileSize, e, index).Stored?
    ensures RecordFor(fileSize, e, index).value.key == e.key
    ensures RangesStored(e.ranges, RecordFor(fileSize, e, index).value.ranges)
  {
    var rs := ConvertAll(fileSize, e.ranges).value;
    AllRanges(fileSize, e.ranges);
    ConvertedContents(fileSize, e.ranges);
    SortContents(rs);
    hide ConvertAll, SortByEnd, NonEmpty, SortedByEnd, Accepted, RangeOk, StoredAs, StoredRange, ArchiveRange.Len;
    forall r, t | r in e.ranges ensures StoredRange(r, t) <==> r.Len() != 0 && StoredAs(r) == t {
      var i :| 0 <= i < |e.ranges| && e.ranges[i] == r;
      SameStored(fileSize, r, t);
    }
  }

  lemma SameStored(fileSize: u32, r: ArchiveRange, t: Range)
    requires RangeOk(fileSize, r.start, r.end)
    ensures StoredRange(r, t) <==> r.Len() != 0 && StoredAs(r) == t
  {
  }

  /** The loop over the ranges of `store_encryption`: checked one by one, the first that is not in order ends it. */
  method ConvertRanges(fileSize: u32, rs: seq<ArchiveRange>) returns (r: StoreResult<seq<Range>>)
    ensures r == ConvertAll(fileSize, rs)
  {
    var ranges: seq<Range> := [];
    for i := 0 to |rs|
      invariant ConvertAll(fileSize, rs[..i]) == Stored(ranges)
    {
      var range := rs[i];
      assert rs[..i + 1][..i] == rs[..i];
      var len := range.Len();
      if len == 0 {
        continue;
      }
      if range.start > range.end || len % BLOCK_SIZE != 0 {
        RefusedPrefix(fileSize, rs, i + 1);
        return Refused(BadRange(range.start, range.end));
      }
      if range.start > Max(0, fileSize - len) {
        RefusedPrefix(fileSize, rs, i + 1);
        return Refused(OobRange(range.start, range.end));
      }
      var blockCount := len % U32_LIMIT / BLOCK_SIZE;
      ranges := ranges + [Range(range.start, blockCount)];
    }
    assert rs[..|rs|] == rs;
    r := Stored(ranges);
  }

  // ---- the octets of a record ----

  lemma {:induction false} RangeFields(rs: seq<Range>, k: nat)
    requires k < |rs|
    ensures EncodeRanges(rs)[8 * k..8 * k + 4] == ToLe(rs[k].start, 4)
    ensures EncodeRanges(rs)[8 * k + 4..8 * k + 8] == ToLe(rs[k].count, 4)
  {
    var start, count, rest := ToLe(rs[0].start, 4), ToLe(rs[0].count, 4), EncodeRanges(rs[1..]);
    assert EncodeRanges(rs) == start + count + rest && |rest| == 8 * (|rs| - 1);
    hide ToLe, EncodeRanges;
    if k == 0 {
      Fields(start, count, rest, []);
      assert start + count + rest + [] == start + count + rest;
    } else {
      RangeFields(rs[1..], k - 1);
      SliceBehind(start + count, rest, 8 * (k - 1), 8 * (k - 1) + 4);
      SliceBehind(start + count, rest, 8 * (k - 1) + 4, 8 * k);
    }
  }

  lemma SliceBehind(first: seq<byte>, rest: seq<byte>, lo: nat, hi: nat)
    requires lo <= hi <= |rest|
    ensures (first + rest)[|first| + lo..|first| + hi] == rest[lo..hi]
  {
  }

  /** Start and number of blocks of each range, in four octets each. */
  lemma RangeOctets(rs: seq<Range>, k: nat)
    requires Storable(rs) && k < |rs|
    ensures var s, i := EncodeRanges(rs), 8 * k;
            && Digits(s[i], s[i + 1], s[i + 2], s[i + 3]) == rs[k].start
            && Digits(s[i + 4], s[i + 5], s[i + 6], s[i + 7]) == rs[k].count
  {
    hide EncodeRanges, ToLe, FromLe;
    assert rs[k] in rs;
    RangeFields(rs, k);
    WidthsHold(rs[k].start);
    WidthsHold(rs[k].count);
    LeFour(ToLe(rs[k].start, 4));
    LeFour(ToLe(rs[k].count, 4));
  }

  /** A tag, the key, the number of ranges in three octets, and the ranges. */
  lemma RecordOctets(rec: Record)
    requires Storable(rec.ranges) && |rec.ranges| <= 0xFF_FFFF
    ensures var s := EncodeRecord(rec);
            && |s| == 20 + 8 * |rec.ranges| && s[0] == 0 && s[1..17] == rec.key
            && Digits(s[17], s[18], s[19], 0) == |rec.ranges| && s[20..] == EncodeRanges(rec.ranges)
  {
    HeaderFields(AES_128_ECB_NONE, rec.key, ToLe(|rec.ranges|, 3), EncodeRanges(rec.ranges), []);
    assert EncodeRecord(rec) + [] == EncodeRecord(rec);
    WidthsHold(|rec.ranges|);
    LeThree(ToLe(|rec.ranges|, 3));
  }

  /** The store of one archive under construction. */
  class RecordStore {
    var out: seq<byte>
    /** Every id handed out so far, with the record it stands for. */
    ghost var issued: seq<(u32, Record)>

    /** Every id ever handed out still finds its own key and its ranges, sorted by end. */
    ghost predicate Valid()
      reads this
    {
      forall i :: 0 <= i < |issued| ==>
        Decode(out, issued[i].0) == Some(issued[i].1) && SortedByEnd(issued[i].1.ranges)
    }

    constructor ()
      ensures Valid() && out == [] && issued == []
    {
      out := [];
      issued := [];
    }

    /** `store_encryption`: check the ranges one by one, sort them, append header and ranges. */
    method StoreEncryption(fileSize: u32, encryption: Encryption) returns (r: StoreResult<u32>)
      requires Valid()
      modifies this
      ensures Valid()
      ensures var expected := RecordFor(fileSize, encryption, |old(out)|);
              match expected {
                case Refused(e) => r == Refused(e) && out == old(out) && issued == old(issued)
                case Stored(rec) =>
                  && r.Stored? && IndexFromId(r.value) == |old(out)|
                  && out == old(out) + EncodeRecord(rec)
                  && issued == old(issued) + [(r.value, rec)]
              }
      ensures r.Stored? <==> Admissible(fileSize, encryption.ranges, |old(out)|)
      ensures r.Stored? ==> r.value == 0xFFFF_FFFF - |old(out)|
      ensures r.Stored? ==> |out| == |old(out)| + 20 + 8 * NonEmpty(encryption.ranges)
      ensures r.Stored? ==> Decode(out, r.value).Some? && Decode(out, r.value).value.key == encryption.key
                            && RangesStored(encryption.ranges, Decode(out, r.value).value.ranges)
      ensures forall i: nat | i < |encryption.ranges| && FirstBad(fileSize, encryption.ranges, i) ::
                r == Refused(Fault(encryption.ranges[i]))
      ensures RangesOk(fileSize, encryption.ranges) && r.Refused? ==> r.error == TooManyRanges
    {
      StoredIff(fileSize, encryption, |out|);
      NameRefusal(fileSize, encryption, |out|);
      if RecordFor(fileSize, encryption, |out|).Stored? { StoredContents(fileSize, encryption, |out|); }
      hide Admissible, RangesOk, FirstBad, RangesStored, Fault;
      hide Decode, EncodeRanges, SortByEnd, SortedByEnd, Storable, ToLe, ConvertAll;
      var converted := ConvertRanges(fileSize, encryption.ranges);
      if converted.Refused? {
        return Refused(converted.error);
      }
      var ranges := converted.value;
      ConvertedAreStorable(fileSize, encryption.ranges);
      SortContents(ranges);
      if |ranges| > U24_MAX {
        return Refused(TooManyRanges);
      }
      var id := IdFromIndex(|out|);
      if id.None? {
        return Refused(TooManyRanges);
      }
      ghost var before, rec := out, Record(encryption.key, SortByEnd(ranges));
      var rangeCount := New(LittleEndian, |ranges|, 4, 3);
      out := out + ([AES_128_ECB_NONE] + encryption.key + rangeCount + EncodeRanges(SortByEnd(ranges)));
      AllStillFound(before, EncodeRecord(rec), issued);
      NewRecordFound(before, rec, id.value);
      issued := issued + [(id.value, rec)];
      r := Stored(id.value);
    }
  }

  /** Appending changes no record of those handed out. */
  lemma AllStillFound(store: seq<byte>, more: seq<byte>, issued: seq<(u32, Record)>)
    requires forall i :: 0 <= i < |issued| ==> Decode(store, issued[i].0) == Some(issued[i].1)
    ensures forall i :: 0 <= i < |issued| ==> Decode(store + more, issued[i].0) == Some(issued[i].1)
  {
    hide Decode;
    forall i | 0 <= i < |issued| ensures Decode(store + more, issued[i].0) == Some(issued[i].1) {
      AppendKeepsRecords(store, more, issued[i].0);
    }
  }

  lemma NewRecordFound(before: seq<byte>, rec: Record, id: u32)
    requires IndexFromId(id) == |before| && Storable(rec.ranges) && |rec.ranges| <= U24_MAX
    ensures Decode(before + EncodeRecord(rec), id) == Some(rec)
  {
    RecordRoundTrip(rec, []);
    assert EncodeRecord(rec) + [] == EncodeRecord(rec);
    assert (before + EncodeRecord(rec))[|before|..] == EncodeRecord(rec);
  }

  /** A refusal of the first ranges refuses them all, for the same reason. */
  lemma {:induction false} RefusedPrefix(fileSize: u32, rs: seq<ArchiveRange>, n: nat)
    requires n <= |rs| && ConvertAll(fileSize, rs[..n]).Refused?
    ensures ConvertAll(fileSize, rs) == ConvertAll(fileSize, rs[..n])
    decreases |rs|
  {
    if n == |rs| {
      assert rs[..n] == rs;
    } else {
      assert rs[..|rs| - 1][..n] == rs[..n];
      RefusedPrefix(fileSize, rs[..|rs| - 1], n);
    }
  }

  /** The range an accepted archive range is stored as. */
  function StoredAs(r: ArchiveRange): Range {
    Range(r.start, r.Len() % U32_LIMIT / BLOCK_SIZE)
  }

  predicate Accepted(fileSize: u32, r: ArchiveRange) {
    Convert(fileSize, r) == Stored(Some(StoredAs(r)))
  }

  /** The bounds check admits a range that starts at 0 and is longer than the file; every other
      accepted range, and no such one, is stored with its own end, inside the file. */
  lemma StoredFaithfullyIff(fileSize: u32, r: ArchiveRange)
    requires Accepted(fileSize, r)
    ensures (StoredAs(r).End() == r.end && r.end <= fileSize) <==> r.Len() <= fileSize
    ensures r.Len() > fileSize ==> r.start == 0
  {
  }

  /** A case in point: 32 octets at offset 0 of a file of 16. */
  lemma OversizedRangeAccepted()
    ensures var r := ArchiveRange(0, 32);
            Accepted(16, r) && r.Len() > 16 && StoredAs(r).End() > 16
  {
    assert Convert(16, ArchiveRange(0, 32)) == Stored(Some(Range(0, 2)));
  }

  /** Which ranges a stored record holds: those of the archive that are not empty. */
  lemma {:induction false} ConvertedContents(fileSize: u32, rs: seq<ArchiveRange>)
    requires ConvertAll(fileSize, rs).Stored?
    ensures forall t :: t in ConvertAll(fileSize, rs).value <==> exists r :: r in rs && r.Len() != 0 && StoredAs(r) == t
    ensures forall r :: r in rs && r.Len() != 0 ==> Accepted(fileSize, r)
    decreases |rs|
  {
    if rs == [] {
    } else {
      var front, last := rs[..|rs| - 1], rs[|rs| - 1];
      assert rs == front + [last];
      ConvertedContents(fileSize, front);
      assert forall r :: r in rs <==> r in front || r == last;
    }
  }
}

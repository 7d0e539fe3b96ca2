/** What the record store makes of an archive's own encryption ranges: ready for decryption. */
module StoredRanges {
  import opened Bytes
  import opened BlockCipher
  import opened EncryptionRecords
  import Sorting

  predicate Apart(r: Range, t: Range) {
    r.End() <= t.start || t.End() <= r.start
  }

  function AreApart(): (Range, Range) -> bool {
    (r: Range, t: Range) => Apart(r, t)
  }

  ghost predicate PairwiseApart(rs: seq<Range>) {
    Sorting.Pairwise(rs, AreApart())
  }

  lemma AppendApart(rs: seq<Range>, t: Range)
    requires PairwiseApart(rs) && forall u :: u in rs ==> Apart(u, t)
    ensures PairwiseApart(rs + [t])
  {
    Sorting.PairwiseAppend(rs, t, AreApart());
  }

  /** The archive's non-empty ranges do not overlap. */
  predicate Disjoint(rs: seq<ArchiveRange>) {
    forall i, j :: 0 <= i < j < |rs| && rs[i].Len() != 0 && rs[j].Len() != 0 ==>
        rs[i].end <= rs[j].start || rs[j].end <= rs[i].start
  }

  /** No range is longer than its file: what the bounds check lets through for ranges at offset 0. */
  predicate NoneOversized(fileSize: u32, rs: seq<ArchiveRange>) {
    forall r :: r in rs ==> r.Len() <= fileSize
  }

  lemma StoredApart(fileSize: u32, r: ArchiveRange, t: ArchiveRange)
    requires Accepted(fileSize, r) && Accepted(fileSize, t) && r.Len() <= fileSize && t.Len() <= fileSize
    requires r.end <= t.start || t.end <= r.start
    ensures Apart(StoredAs(r), StoredAs(t))
  {
    StoredFaithfullyIff(fileSize, r);
    StoredFaithfullyIff(fileSize, t);
  }

  lemma {:induction false} ConvertedApart(fileSize: u32, rs: seq<ArchiveRange>)
    requires ConvertAll(fileSize, rs).Stored? && Disjoint(rs) && NoneOversized(fileSize, rs)
    ensures PairwiseApart(ConvertAll(fileSize, rs).value)
    decreases |rs|
  {
    if rs == [] {
    } else {
      var front, last := rs[..|rs| - 1], rs[|rs| - 1];
      assert rs == front + [last];
      ConvertedApart(fileSize, front);
      ConvertedContents(fileSize, rs);
      ConvertedContents(fileSize, front);
      if last.Len() != 0 {
        forall t | t in ConvertAll(fileSize, front).value ensures Apart(t, StoredAs(last)) {
          hide Apart, Accepted;
          var i :| 0 <= i < |front| && front[i].Len() != 0 && StoredAs(front[i]) == t;
          assert rs[i] == front[i] && rs[i] in rs && last in rs;
          assert rs[i].end <= last.start || last.end <= rs[i].start;
          StoredApart(fileSize, rs[i], last);
        }
        AppendApart(ConvertAll(fileSize, front).value, StoredAs(last));
      }
    }
  }

  /** A stored range is one of the archive's. */
  predicate Names(r: ArchiveRange, t: Range) {
    r.start < r.end && t.start == r.start && t.End() == r.end
  }

  lemma StoredNames(fileSize: u32, r: ArchiveRange, t: Range)
    requires r.Len() != 0 ==> Accepted(fileSize, r) && r.Len() <= fileSize
    ensures (r.Len() != 0 && StoredAs(r) == t) <==> Names(r, t)
    ensures Names(r, t) ==> t.count > 0 && t.End() <= fileSize
  {
    if r.Len() != 0 { StoredFaithfullyIff(fileSize, r); }
  }

  lemma WellPlacedFrom(rs: seq<Range>, n: nat)
    requires SortedByEnd(rs) && PairwiseApart(rs) && forall t :: t in rs ==> t.count > 0 && t.End() <= n
    ensures WellPlaced(rs, n)
  {
    assert forall i :: 0 <= i < |rs| ==> rs[i] in rs;
    forall i, j | 0 <= i < j < |rs| ensures rs[i].End() <= rs[j].start || rs[j].End() <= rs[i].start {
      assert AreApart()(rs[i], rs[j]);
    }
  }

  /** What `store_encryption` accepts is ready for decryption: non-empty, sorted, disjoint and in the
      file, and it is the archive's own ranges that are stored. */
  lemma StoredRangesWellPlaced(fileSize: u32, e: Encryption, index: nat)
    requires RecordFor(fileSize, e, index).Stored? && Disjoint(e.ranges) && NoneOversized(fileSize, e.ranges)
    ensures var rec := RecordFor(fileSize, e, index).value;
            && rec.key == e.key && WellPlaced(rec.ranges, fileSize)
            && forall t :: t in rec.ranges <==> exists r :: r in e.ranges && Names(r, t)
  {
    hide Names, Accepted, WellPlaced, Apart;
    var rs := ConvertAll(fileSize, e.ranges).value;
    ConvertedContents(fileSize, e.ranges);
    ConvertedApart(fileSize, e.ranges);
    Sorting.SortKeepsPairs(rs, ByEnd(), AreApart());
    SortContents(rs);
    forall t ensures t in rs <==> exists r :: r in e.ranges && Names(r, t) {
      forall r | r in e.ranges ensures (r.Len() != 0 && StoredAs(r) == t) <==> Names(r, t) {
        StoredNames(fileSize, r, t);
      }
    }
    forall t | t in rs ensures t.count > 0 && t.End() <= fileSize {
      var r :| r in e.ranges && Names(r, t);
      StoredNames(fileSize, r, t);
    }
    WellPlacedFrom(SortByEnd(rs), fileSize);
  }

  /** A stored record is found by its id, whatever is stored after it. */
  lemma StoredRecordFound(fileSize: u32, e: Encryption, before: seq<byte>, later: seq<byte>, id: u32)
    requires RecordFor(fileSize, e, |before|).Stored? && IdFromIndex(|before|) == Some(id)
    ensures var rec := RecordFor(fileSize, e, |before|).value;
            Decode(before + EncodeRecord(rec) + later, id) == Some(rec)
  {
    hide Decode, EncodeRecord, DecodeAt;
    var rec := RecordFor(fileSize, e, |before|).value;
    ConvertedAreStorable(fileSize, e.ranges);
    SortContents(ConvertAll(fileSize, e.ranges).value);
    NewRecordFound(before, rec, id);
    AppendKeepsRecords(before + EncodeRecord(rec), later, id);
  }
}

/** Which entries of a header are accepted, and where their sizes and their encryption are taken from, in the
    header's own fields and octets. */
module HeaderEntries {
  import opened Bytes
  import opened Unaligned
  import opened EncryptionRecords
  import opened Bhd5

  /** Sizes that are not negative, an unpadded size, where there is one, of at most the size, and offsets of
      encryption and hash, where there are any, inside a header that has them, or both zero. */
  predicate EntryInOrder(entry: FileEntry, header: Header) {
    && 0 <= entry.size
    && (entry.kind == Ds3 || entry.kind == Er ==> 0 <= entry.unpadded <= entry.size)
    && (entry.kind == Ds2 || entry.kind == Ds3 || entry.kind == Er ==>
          if header.hasCrypto then
            entry.encryptionOffset < header.fileSize && entry.hashOffset < header.fileSize
          else
            entry.encryptionOffset == 0 && entry.hashOffset == 0)
  }

  /** Only entries of the last two layouts have an unpadded size, only those of the first have no encryption,
      and a size below zero counts as zero. */
  lemma EntryFields(entry: FileEntry, header: Header)
    ensures entry.IsValid(header) <==> EntryInOrder(entry, header)
    ensures entry.FileSize() == if entry.size < 0 then 0 else entry.size
    ensures entry.UnpaddedSize()
            == if (entry.kind == Ds3 || entry.kind == Er) && 0 < entry.unpadded then entry.unpadded else 0
    ensures entry.EncryptionAt() == None <==> entry.kind == Ds || entry.encryptionOffset == 0
    ensures entry.EncryptionAt().Some? ==> entry.EncryptionAt().value == entry.encryptionOffset
  {
  }

  // ---- whole headers ----

  type Buckets = seq<Option<seq<FileEntry>>>

  /** Entry `j` of bucket `i`. */
  predicate At(buckets: Buckets, i: nat, j: nat, entry: FileEntry) {
    i < |buckets| && buckets[i].Some? && j < |buckets[i].value| && buckets[i].value[j] == entry
  }

  /** Every bucket is there, every entry is in order, and only one may start at offset 0. */
  ghost predicate HeaderInOrder(buckets: Buckets, header: Header) {
    && (forall i :: 0 <= i < |buckets| ==> buckets[i].Some?)
    && (forall i: nat, j: nat, entry :: At(buckets, i, j, entry) ==> EntryInOrder(entry, header))
    && (forall i: nat, j: nat, k: nat, m: nat, a, b ::
          At(buckets, i, j, a) && At(buckets, k, m, b) && (i != k || j != m) ==> a.offset != 0 || b.offset != 0)
  }

  lemma {:induction false} PresentIff(buckets: Buckets)
    ensures Present(buckets).Some? <==> forall i :: 0 <= i < |buckets| ==> buckets[i].Some?
  {
    if buckets == [] {
    } else {
      PresentIff(buckets[1..]);
      assert forall i :: 0 <= i < |buckets| - 1 ==> buckets[1..][i] == buckets[i + 1];
      assert buckets == [buckets[0]] + buckets[1..];
    }
  }

  /** How many entries stand in the first `i` buckets. */
  function Before(buckets: Buckets, i: nat): nat
    requires i <= |buckets| && Present(buckets).Some?
  {
    if i == 0 then 0 else |buckets[0].value| + Before(buckets[1..], i - 1)
  }

  /** The entries of all buckets, one behind the other. */
  lemma {:induction false} PlaceOf(buckets: Buckets, i: nat, j: nat, entry: FileEntry)
    requires Present(buckets).Some? && At(buckets, i, j, entry)
    ensures Before(buckets, i) + j < |Present(buckets).value| && Present(buckets).value[Before(buckets, i) + j] == entry
  {
    if i == 0 {
    } else {
      PlaceOf(buckets[1..], i - 1, j, entry);
    }
  }

  lemma {:induction false} PlaceExists(buckets: Buckets, p: nat) returns (i: nat, j: nat)
    requires Present(buckets).Some? && p < |Present(buckets).value|
    ensures At(buckets, i, j, Present(buckets).value[p]) && Before(buckets, i) + j == p
  {
    if p < |buckets[0].value| {
      i, j := 0, p;
    } else {
      i, j := PlaceExists(buckets[1..], p - |buckets[0].value|);
      i := i + 1;
    }
  }

  lemma {:induction false} PlacesApart(buckets: Buckets, i: nat, j: nat, a: FileEntry, k: nat, m: nat, b: FileEntry)
    requires Present(buckets).Some? && At(buckets, i, j, a) && At(buckets, k, m, b) && (i < k || (i == k && j < m))
    ensures Before(buckets, i) + j < Before(buckets, k) + m
  {
    if i == 0 {
    } else {
      PlacesApart(buckets[1..], i - 1, j, a, k - 1, m, b);
    }
  }

  lemma InOrderIfValid(buckets: Buckets, header: Header)
    requires Present(buckets).Some? && AllValid(Present(buckets).value, header)
    ensures HeaderInOrder(buckets, header)
  {
    hide Present, EntryInOrder, FileEntry.IsValid, At;
    var all := Present(buckets).value;
    PresentIff(buckets);
    forall i: nat, j: nat, entry | At(buckets, i, j, entry) ensures EntryInOrder(entry, header) {
      AtMeans(buckets, i, j, entry);
      PlaceOf(buckets, i, j, entry);
      EntryFields(entry, header);
    }
    forall i: nat, j: nat, k: nat, m: nat, a, b | At(buckets, i, j, a) && At(buckets, k, m, b) && (i != k || j != m)
      ensures a.offset != 0 || b.offset != 0
    {
      AtMeans(buckets, i, j, a);
      AtMeans(buckets, k, m, b);
      PlaceOf(buckets, i, j, a);
      PlaceOf(buckets, k, m, b);
      if i < k || (i == k && j < m) {
        PlacesApart(buckets, i, j, a, k, m, b);
      } else {
        PlacesApart(buckets, k, m, b, i, j, a);
      }
    }
  }

  lemma AtMeans(buckets: Buckets, i: nat, j: nat, entry: FileEntry)
    requires At(buckets, i, j, entry)
    ensures i < |buckets|
  {
  }

  lemma ValidIfInOrder(buckets: Buckets, header: Header)
    requires HeaderInOrder(buckets, header)
    ensures Present(buckets).Some? && AllValid(Present(buckets).value, header)
  {
    hide EntryInOrder, FileEntry.IsValid, At;
    PresentIff(buckets);
    var all := Present(buckets).value;
    hide Present;
    forall p | 0 <= p < |all| ensures all[p].IsValid(header) {
      var i, j := PlaceExists(buckets, p);
      EntryFields(all[p], header);
    }
    forall p, q | 0 <= p < q < |all| ensures all[p].offset != 0 || all[q].offset != 0 {
      var i, j := PlaceExists(buckets, p);
      var k, m := PlaceExists(buckets, q);
      assert i != k || j != m;
    }
  }

  /** The header is accepted exactly when it is in order. */
  lemma AcceptedIff(buckets: Buckets, header: Header)
    ensures Acceptable(buckets, header) <==> HeaderInOrder(buckets, header)
  {
    hide Present, AllValid, HeaderInOrder;
    if HeaderInOrder(buckets, header) { ValidIfInOrder(buckets, header); }
    if Acceptable(buckets, header) { InOrderIfValid(buckets, header); }
  }

  // ---- encryption ----

  /** Where range `k` of encryption data at `at` stands. */
  function RangeAt(at: nat, k: nat): nat { at + 20 + 16 * k }

  /** The encryption data at `at`: 16 octets of key, a count in four, signed, and start and end of each range in
      eight octets each. */
  ghost predicate DataAt(order: Order, bytes: seq<byte>, at: nat, e: Encryption) {
    && at + 20 + 16 * |e.ranges| <= |bytes|
    && e.key == bytes[at..at + 16] && |e.ranges| == order.Read(bytes[at + 16..at + 20]) < 0x8000_0000
    && forall k :: 0 <= k < |e.ranges| ==>
         && 0 <= RangeAt(at, k) <= RangeAt(at, k) + 16 <= |bytes|
         && e.ranges[k].start == order.Read(bytes[RangeAt(at, k)..RangeAt(at, k) + 8])
         && e.ranges[k].end == order.Read(bytes[RangeAt(at, k) + 8..RangeAt(at, k) + 16])
  }

  lemma {:induction false} RangesAt(order: Order, s: seq<byte>, n: nat, k: nat)
    requires 16 * n <= |s| && k < n
    ensures ReadRanges(order, s, n)[k].start == order.Read(s[16 * k..16 * k + 8])
    ensures ReadRanges(order, s, n)[k].end == order.Read(s[16 * k + 8..16 * k + 16])
  {
    hide Order.Read;
    if k == 0 {
    } else {
      RangesAt(order, s[16..], n - 1, k - 1);
      assert s[16..][16 * (k - 1)..16 * (k - 1) + 8] == s[16 * k..16 * k + 8];
      assert s[16..][16 * (k - 1) + 8..16 * (k - 1) + 16] == s[16 * k + 8..16 * k + 16];
    }
  }

  /** What is read at an offset is what stands there. */
  lemma EncryptionOctets(order: Order, bytes: seq<byte>, at: nat, e: Encryption)
    ensures ReadEncryption(order, bytes, at) == Some(e) ==> DataAt(order, bytes, at, e)
  {
    hide Order.Read, ReadRanges;
    if ReadEncryption(order, bytes, at) == Some(e) {
      var data, n := bytes[at..], |e.ranges|;
      assert data[..16] == bytes[at..at + 16] && data[16..20] == bytes[at + 16..at + 20];
      forall k | 0 <= k < n
        ensures 0 <= RangeAt(at, k) <= RangeAt(at, k) + 16 <= |bytes|
        ensures e.ranges[k].start == order.Read(bytes[RangeAt(at, k)..RangeAt(at, k) + 8])
        ensures e.ranges[k].end == order.Read(bytes[RangeAt(at, k) + 8..RangeAt(at, k) + 16])
      {
        RangesAt(order, data[20..], n, k);
        assert data[20..][16 * k..16 * k + 8] == bytes[RangeAt(at, k)..RangeAt(at, k) + 8];
        assert data[20..][16 * k + 8..16 * k + 16] == bytes[RangeAt(at, k) + 8..RangeAt(at, k) + 16];
      }
    }
  }

  /** Reading fails exactly where the header ends too early or the count is negative. */
  lemma EncryptionFails(order: Order, bytes: seq<byte>, at: nat)
    ensures ReadEncryption(order, bytes, at) == None
            <==> |bytes| < at + 20 || order.Read(bytes[at + 16..at + 20]) >= 0x8000_0000
                 || |bytes| < at + 20 + 16 * order.Read(bytes[at + 16..at + 20])
  {
    hide Order.Read, ReadRanges;
    if |bytes| >= at + 20 { assert bytes[at..][16..20] == bytes[at + 16..at + 20]; }
  }

  /** The encryption of an entry is that at its offset; there is none for an entry of the first layout or for
      offset 0. */
  lemma EntryEncryption(order: Order, bytes: seq<byte>, entry: FileEntry)
    ensures EncryptionOf(order, bytes, entry) == Some(None) <==> entry.kind == Ds || entry.encryptionOffset == 0
    ensures forall e :: EncryptionOf(order, bytes, entry) == Some(Some(e)) ==>
              DataAt(order, bytes, entry.encryptionOffset, e)
  {
    hide ReadEncryption, DataAt;
    forall e | EncryptionOf(order, bytes, entry) == Some(Some(e))
      ensures DataAt(order, bytes, entry.encryptionOffset, e)
    {
      EncryptionOctets(order, bytes, entry.encryptionOffset, e);
    }
  }
}

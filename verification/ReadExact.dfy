/** The encrypted read is right for every archive and every cipher exactly on the right layouts. */
module ReadExact {
  import opened Bytes
  import opened BlockCipher
  import opened WindowDecryptor
  import opened WindowTheorem
  import opened AlignedStream
  import opened Mount
  import opened ReadTheorem
  import opened ReadWitness

  /** Right for every archive that holds the file, and every cipher. */
  ghost predicate AlwaysRight(v: Version, file: DvdbndFile, rs: seq<Range>, w: nat, fo: nat, l: nat)
    requires w > 0 && fo + l <= file.len && WellPlaced(rs, file.len)
  {
    forall dec: Cipher, bdt: seq<byte> | file.dataOffset + file.len <= |bdt| ::
      DeliversPlain(file, bdt, Keyed(dec, rs, v), w, fo, l)
  }

  /** The encrypted read of a non-empty request gives the whole-file decryption, for every archive and
      every cipher, if and only if the layout is right: for the source and for both its repairs. */
  lemma EncryptedReadRightIff(v: Version, file: DvdbndFile, rs: seq<Range>, w: nat, fo: nat, l: nat)
    requires IsWindowSize(w) && 0 < l && fo + l <= file.len && WellPlaced(rs, file.len)
    ensures AlwaysRight(v, file, rs, w, fo, l) <==> RightLayout(v, rs, fo, l)
  {
    hide DeliversPlain, RightLayout, WellPlaced;
    if RightLayout(v, rs, fo, l) {
      forall dec: Cipher, bdt: seq<byte> | file.dataOffset + file.len <= |bdt|
        ensures DeliversPlain(file, bdt, Keyed(dec, rs, v), w, fo, l)
      {
        EncryptedReadIsPlain(file, bdt, Keyed(dec, rs, v), w, fo, l);
      }
    } else if AlwaysRight(v, file, rs, w, fo, l) {
      match v
      case AsWritten =>
        assert DeliversPlain(file, Zeros(file.dataOffset + file.len), Witness(rs), w, fo, l);
        RightDeliveryNeedsRightLayout(file, rs, w, fo, l);
      case HeadRepaired =>
        assert DeliversPlain(file, Ones(file.dataOffset + file.len), Flagged(rs), w, fo, l);
        RightDeliveryReaches(file, rs, w, fo, l);
      case FullyRepaired =>
        FullyRepairedIsRight(rs, fo, l);
    }
  }

  /** With both repairs the loop over the stream is right for every request, at every alignment. */
  lemma FullyRepairedReadIsRight(file: DvdbndFile, rs: seq<Range>, w: nat, fo: nat, l: nat)
    requires IsWindowSize(w) && 0 < l && fo + l <= file.len && WellPlaced(rs, file.len)
    ensures AlwaysRight(FullyRepaired, file, rs, w, fo, l)
  {
    FullyRepairedIsRight(rs, fo, l);
    EncryptedReadRightIff(FullyRepaired, file, rs, w, fo, l);
  }

  /** A case in point: 16 octets from the middle of the first block of a range are not read right. */
  lemma MisalignedReadFails(file: DvdbndFile) returns (dec: Cipher, bdt: seq<byte>)
    requires file.len == 64
    ensures file.dataOffset + file.len <= |bdt| && WellPlaced([Range(8, 2)], 64)
    ensures !DeliversPlain(file, bdt, Keyed(dec, [Range(8, 2)], AsWritten), 64, 16, 16)
  {
    var rs := [Range(8, 2)];
    assert rs[0] in rs && CutBy(rs[0], 16);
    assert !RightLayout(AsWritten, rs, 16, 16);
    EncryptedReadRightIff(AsWritten, file, rs, 64, 16, 16);
    dec, bdt :| file.dataOffset + file.len <= |bdt| && !DeliversPlain(file, bdt, Keyed(dec, rs, AsWritten), 64, 16, 16);
  }

  /** The repaired head is not enough: a request that ends two octets into its second buffer. */
  lemma ShortTailFails(file: DvdbndFile) returns (dec: Cipher, bdt: seq<byte>)
    requires file.len == 2 * BUFFER_LEN
    ensures file.dataOffset + file.len <= |bdt| && WellPlaced([Range(8, 4095)], file.len)
    ensures !DeliversPlain(file, bdt, Keyed(dec, [Range(8, 4095)], HeadRepaired), 64, 0, BUFFER_LEN + 2)
  {
    var rs := [Range(8, 4095)];
    assert rs[0] in rs && CutBy(rs[0], BUFFER_LEN) && Cut(BUFFER_LEN, rs[0]) == 8;
    assert !BoundaryOk(HeadRepaired, rs, BUFFER_LEN, BUFFER_LEN + 2);
    assert !RightLayout(HeadRepaired, rs, 0, BUFFER_LEN + 2);
    EncryptedReadRightIff(HeadRepaired, file, rs, 64, 0, BUFFER_LEN + 2);
    dec, bdt :| file.dataOffset + file.len <= |bdt|
                && !DeliversPlain(file, bdt, Keyed(dec, rs, HeadRepaired), 64, 0, BUFFER_LEN + 2);
  }

  /** Every range that meets the request starts at a multiple of 16 from the request's start. */
  predicate AlignedWith(rs: seq<Range>, fo: nat, l: nat) {
    forall r :: r in rs && r.start < fo + l && fo < r.End() ==> (r.start - fo) % BLOCK_SIZE == 0
  }

  lemma {:induction false} AlignedBoundaries(rs: seq<Range>, fo: nat, off: nat, to: nat)
    requires fo <= off && fo <= to && (off - fo) % BLOCK_SIZE == 0 && AlignedWith(rs, fo, to - fo)
    ensures off < to ==> !CutsBlock(rs, off)
    ensures BoundariesOk(AsWritten, rs, off, to)
    decreases Max(0, to - off)
  {
    if off + BUFFER_LEN >= to {
    } else {
      AlignedBoundaries(rs, fo, off + BUFFER_LEN, to);
    }
  }

  /** Requests at block boundaries of the ranges they meet, such as page-wise reads of ranges that start
      at multiples of 16, are always right. */
  lemma AlignedRequestIsRight(rs: seq<Range>, fo: nat, l: nat)
    requires 0 < l && AlignedWith(rs, fo, l)
    ensures RightLayout(AsWritten, rs, fo, l)
  {
    AlignedBoundaries(rs, fo, fo, fo + l);
    UncutStartsCleanly(AsWritten, rs, fo, Min(l, BUFFER_LEN));
  }
}

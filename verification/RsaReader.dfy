/** The streaming reader over RSA blocks: reads of any size, decoding block by block. */
module RsaReader {
  import opened Bytes
  import opened Octets
  import opened Rsa

  /** What is left of the input once its readable blocks are used up. */
  function Unreadable(key: RsaKey, input: seq<byte>): seq<byte>
    requires key.Valid()
  {
    input[Readable(key, input)..]
  }

  class RsaDecryptor {
    const key: RsaKey
    /** The last block decoded apart; from `pos` on not yet handed over. */
    const out: array<byte>
    var pos: nat
    /** What the inner reader has not given yet. */
    var rest: seq<byte>

    ghost predicate Valid()
      reads this
    {
      key.Valid() && out.Length == key.len - 1 && pos <= out.Length
    }

    /** The plaintext still to come. */
    ghost function Pending(): seq<byte>
      reads this, out
      requires Valid()
    {
      out[pos..] + Decoded(key, rest)
    }

    constructor (key: RsaKey, input: seq<byte>)
      requires key.Valid()
      ensures Valid() && fresh(out) && this.key == key && rest == input
      ensures Pending() == Decoded(key, input)
    {
      this.key := key;
      out := new byte[key.len - 1](_ => 0);
      pos := key.len - 1;
      rest := input;
    }

    /** The cursor's share of a read: as much of `out` as fits is copied and consumed. */
    method HandOver(buf: array<byte>, lo: nat) returns (amt: nat)
      requires Valid() && buf != out && lo <= buf.Length
      modifies this`pos, buf
      ensures Valid() && amt == Min(out.Length - old(pos), buf.Length - lo)
      ensures amt <= |old(Pending())| && Pending() == old(Pending())[amt..]
      ensures buf[..] == Overwrite(old(buf[..]), lo, old(Pending())[..amt])
    {
      hide Decoded, Overwrite;
      amt := Min(out.Length - pos, buf.Length - lo);
      TakenFromOut(out[..], pos, amt, Decoded(key, rest));
      ghost var same := out[..];
      CopyInto(buf, lo, out[pos..pos + amt]);
      assert out[..] == same;
      pos := pos + amt;
    }

    /** `read`: fills the whole of `buf` when the plaintext lasts, and fails otherwise, having given
        what there was. A failure with less than a block of room left also rewinds `pos`, so that the
        octets of `out` would be handed over again. */
    method Read(buf: array<byte>) returns (r: Outcome<nat>)
      requires Valid() && buf != out
      modifies this, out, buf
      ensures Valid() && WholeBlocksOff(key, old(rest), rest)
      ensures r.Ok? <==> buf.Length <= |old(Pending())|
      ensures r.Ok? ==>
                && r.value == buf.Length
                && buf[..] == old(Pending())[..buf.Length]
                && Pending() == old(Pending())[buf.Length..]
                && Unreadable(key, rest) == Unreadable(key, old(rest))
      ensures r.Err? ==>
                && buf[..] == Overwrite(old(buf[..]), 0, old(Pending()))
                && rest == Unreadable(key, old(rest)) && r.error == (if |rest| >= key.len then Base else Size(key.len))
                && out[..] == old(out[..])
                && pos == (if buf.Length - |old(Pending())| < key.len - 1 then 0 else out.Length)
    {
      hide Decoded, Readable, StartsReadable, Overwrite, DecryptBlock, Reduced, Given, Unreadable, WholeBlocksOff;
      var lo: nat := 0;
      ghost var pending, room, left := Pending(), buf[..], Unreadable(key, rest);
      NothingRead(room, pending);
      ghost var input := rest;
      NothingOff(key, input);
      while lo < buf.Length
        invariant Valid() && lo <= buf.Length
        invariant Given(room, pending, buf[..], Pending(), lo)
        invariant Unreadable(key, rest) == left && WholeBlocksOff(key, input, rest)
        invariant |pending| < buf.Length ==> out[..] == old(out[..])
        decreases |rest|, buf.Length - lo
      {
        ghost var before := buf[..];
        if pos < out.Length {
          ghost var now := Pending();
          var amt := HandOver(buf, lo);
          StillGiven(room, pending, before, now, lo, amt);
          lo := lo + amt;
          continue;
        }
        assert Pending() == Decoded(key, rest);
        var block := rest[..Min(key.len, |rest|)];
        NextBlock(key, rest, block);
        if buf.Length - lo >= key.len - 1 {
          var done := DecryptWhole(key, block, buf, lo);
          if done.Err? {
            AllGiven(room, pending, before, Pending(), lo);
            return Err(done.error);
          }
          StillGiven(room, pending, before, Decoded(key, rest), lo, key.len - 1);
          lo := lo + (key.len - 1);
        } else {
          pos := 0;
          ghost var stale := out[..];
          var done := DecryptWhole(key, block, out, 0);
          if done.Err? {
            AllGiven(room, pending, before, [], lo);
            return Err(done.error);
          }
          StillLeft(room, pending, before, Decoded(key, rest), lo);
          WholeOverwritten(stale, DecryptBlock(key, block));
          assert out[0..] == out[..];
        }
        OneMoreOff(key, input, rest);
        rest := rest[key.len..];
        assert Pending() == if pos == 0 then out[..] + Decoded(key, rest) else Decoded(key, rest);
      }
      r := Ok(lo);
      AllGivenOk(room, pending, buf[..], Pending(), lo);
    }

    /** `read_to_end`: the rest of `out`, then all remaining blocks decoded in place behind it. */
    method ReadToEnd(buf: seq<byte>) returns (r: Outcome<nat>, full: seq<byte>)
      requires Valid()
      modifies this
      ensures Valid() && rest == [] && pos == out.Length
      ensures r.Ok? <==> Readable(key, old(rest)) == |old(rest)|
      ensures r.Ok? ==> full == buf + old(Pending()) && r.value == |old(Pending())| && Pending() == []
      ensures r.Err? && |old(rest)| % key.len != 0 ==>
                r.error == Size(key.len) && full == buf + old(out[pos..]) + old(rest)
      ensures r.Err? && |old(rest)| % key.len == 0 ==>
                && r.error == Base && |Decoded(key, old(rest))| <= |old(rest)|
                && full == buf + old(out[pos..]) + Overwrite(old(rest), 0, Decoded(key, old(rest)))
    {
      hide DecryptBlock, Reduced, Decoded, Readable, StartsReadable;
      ghost var pending := Pending();
      var read := out.Length - pos;
      full := buf + out[pos..];
      pos := out.Length;
      var input := rest;
      var tail := new byte[|input|](i requires 0 <= i < |input| => input[i]);
      assert tail[..] == input;
      DecodedLength(key, input);
      DecodedEmpty(key);
      rest := [];
      var len := DecryptBlocksInPlace(key, tail);
      if len.Err? {
        return Err(len.error), full + tail[..];
      }
      OverwrittenPrefix(input, Decoded(key, input));
      full := full + tail[..len.value];
      r := Ok(read + len.value);
    }
  }

  lemma DecodedEmpty(key: RsaKey)
    requires key.Valid()
    ensures Decoded(key, []) == [] && Readable(key, []) == 0
  {
  }

  lemma OverwrittenPrefix(s: seq<byte>, t: seq<byte>)
    requires |t| <= |s|
    ensures Overwrite(s, 0, t)[..|t|] == t
  {
  }

  lemma WholeOverwritten(s: seq<byte>, t: seq<byte>)
    requires |t| == |s|
    ensures Overwrite(s, 0, t) == t
  {
  }

  /** What is left of the input begins at a block of it. */
  ghost predicate WholeBlocksOff(key: RsaKey, input: seq<byte>, rest: seq<byte>)
    requires key.Valid()
  {
    |rest| <= |input| && rest == input[|input| - |rest|..] && (|input| - |rest|) % key.len == 0
  }

  lemma NothingOff(key: RsaKey, input: seq<byte>)
    requires key.Valid()
    ensures WholeBlocksOff(key, input, input)
  {
  }

  lemma OneMoreOff(key: RsaKey, input: seq<byte>, rest: seq<byte>)
    requires key.Valid() && WholeBlocksOff(key, input, rest) && |rest| >= key.len
    ensures WholeBlocksOff(key, input, rest[key.len..])
  {
    var taken, q := |input| - |rest|, (|input| - |rest|) / key.len;
    assert taken == key.len * q;
    RemainderIs(taken + key.len, key.len, q + 1, 0);
  }

  /** The first `lo` octets of the plaintext have gone into the buffer, the others are still pending. */
  ghost predicate Given(room: seq<byte>, pending: seq<byte>, buf: seq<byte>, now: seq<byte>, lo: nat) {
    lo <= |pending| && lo <= |room| && buf == Overwrite(room, 0, pending[..lo]) && now == pending[lo..]
  }

  lemma NothingRead(room: seq<byte>, pending: seq<byte>)
    ensures Given(room, pending, room, pending, 0)
  {
  }

  lemma StillLeft(room: seq<byte>, pending: seq<byte>, buf: seq<byte>, now: seq<byte>, lo: nat)
    requires Given(room, pending, buf, now, lo)
    ensures |pending| == lo + |now|
  {
  }

  lemma TakenFromOut(out: seq<byte>, pos: nat, amt: nat, decoded: seq<byte>)
    requires pos + amt <= |out|
    ensures (out[pos..] + decoded)[..amt] == out[pos..pos + amt]
    ensures (out[pos..] + decoded)[amt..] == out[pos + amt..] + decoded
  {
  }

  lemma StillGiven(room: seq<byte>, pending: seq<byte>, buf: seq<byte>, now: seq<byte>, lo: nat, amt: nat)
    requires Given(room, pending, buf, now, lo) && amt <= |now| && lo + amt <= |room|
    ensures Given(room, pending, Overwrite(buf, lo, now[..amt]), now[amt..], lo + amt)
  {
    hide Overwrite;
    OverwriteTwice(room, 0, pending[..lo], now[..amt]);
    assert pending[..lo] + now[..amt] == pending[..lo + amt];
    assert now[amt..] == pending[lo + amt..];
  }

  lemma AllGiven(room: seq<byte>, pending: seq<byte>, buf: seq<byte>, now: seq<byte>, lo: nat)
    requires Given(room, pending, buf, now, lo) && now == []
    ensures lo == |pending| < |room| + 1 && |room| == |buf| && buf == Overwrite(room, 0, pending)
  {
    hide Overwrite;
    assert pending[..lo] == pending;
  }

  lemma AllGivenOk(room: seq<byte>, pending: seq<byte>, buf: seq<byte>, now: seq<byte>, lo: nat)
    requires Given(room, pending, buf, now, lo) && lo == |room| == |buf|
    ensures |room| <= |pending| && buf == pending[..lo] && now == pending[lo..]
  {
    WholeOverwritten(room, pending[..lo]);
  }

  /** `decrypt_block_in` where the room is that of a whole decoded block. */
  method DecryptWhole(key: RsaKey, block: seq<byte>, target: array<byte>, lo: nat) returns (r: Outcome<()>)
    requires key.Valid() && lo + (key.len - 1) <= target.Length
    modifies target
    ensures r.Ok? <==> |block| == key.len && Reduced(key, block)
    ensures r.Ok? ==> target[..] == Overwrite(old(target[..]), lo, DecryptBlock(key, block))
    ensures r.Err? ==> target[..] == old(target[..]) && r.error == if |block| == key.len then Base else Size(key.len)
  {
    hide Overwrite, Reduced, Recovered, ToBe;
    r := DecryptBlockIn(key, block, target, lo, lo + (key.len - 1));
  }

  /** What taking one block off the input does. */
  lemma NextBlock(key: RsaKey, rest: seq<byte>, block: seq<byte>)
    requires key.Valid() && block == rest[..Min(key.len, |rest|)]
    ensures |block| == key.len && Reduced(key, block) ==>
              |rest| >= key.len && Advances(key, rest, rest[key.len..], DecryptBlock(key, block))
    ensures !(|block| == key.len && Reduced(key, block)) ==> Decoded(key, rest) == [] && Unreadable(key, rest) == rest
    ensures |block| == key.len <==> |rest| >= key.len
  {
    hide Reduced, DecryptBlock, Advances;
    if |rest| >= key.len && Reduced(key, block) {
      BlockTaken(key, rest);
    } else {
      assert !StartsReadable(key, rest);
      assert rest[0..] == rest;
    }
  }

  ghost predicate Advances(key: RsaKey, before: seq<byte>, after: seq<byte>, text: seq<byte>)
    requires key.Valid()
  {
    && |text| == key.len - 1 <= |Decoded(key, before)|
    && Decoded(key, before) == text + Decoded(key, after)
    && Decoded(key, before)[..key.len - 1] == text
    && Decoded(key, before)[key.len - 1..] == Decoded(key, after)
    && Unreadable(key, after) == Unreadable(key, before)
  }

  lemma BlockTaken(key: RsaKey, rest: seq<byte>)
    requires key.Valid() && StartsReadable(key, rest)
    ensures Advances(key, rest, rest[key.len..], DecryptBlock(key, rest[..key.len]))
  {
    hide Reduced;
    DecodedBlock(key, rest);
    hide DecryptBlock, StartsReadable, Decoded, Readable;
    var after := rest[key.len..];
    assert rest[key.len + Readable(key, after)..] == after[Readable(key, after)..];
  }

  lemma DecodedBlock(key: RsaKey, rest: seq<byte>)
    requires key.Valid() && StartsReadable(key, rest)
    ensures Decoded(key, rest) == DecryptBlock(key, rest[..key.len]) + Decoded(key, rest[key.len..])
    ensures Readable(key, rest) == key.len + Readable(key, rest[key.len..])
  {
    hide Reduced, DecryptBlock;
  }

  // ---- runs of reads ----

  /** A case in point: of an input of one block, one octet is read, and then more than there is. The octets
      that the failing read handed over are pending again after it. */
  method FailedReadRepeats(key: RsaKey, block: seq<byte>) returns (reader: RsaDecryptor, given: seq<byte>)
    requires key.len >= 3 && |block| == key.len && Reduced(key, block)
    ensures reader.Valid() && |given| == key.len - 2 && given == DecryptBlock(key, block)[1..]
    ensures |reader.Pending()| == key.len - 1 && reader.Pending()[1..] == given
  {
    hide DecryptBlock, Reduced, Decoded, Readable, StartsReadable, Overwrite, Unreadable;
    OneBlock(key, block);
    var text := DecryptBlock(key, block);
    reader := new RsaDecryptor(key, block);
    var first := new byte[1](_ => 0);
    var read := reader.Read(first);
    PartOfBlock(key, reader.out[reader.pos..], reader.rest, text[1..]);
    ghost var kept := reader.out[..];
    assert reader.pos == 1 && kept[1..] == text[1..];
    NothingUnreadable(key, reader.rest);
    var second := new byte[key.len - 1](_ => 0);
    ghost var room := second[..];
    read := reader.Read(second);
    assert reader.out[..] == kept;
    OverwrittenPrefix(room, text[1..]);
    given := second[..key.len - 2];
  }

  /** Where decoding stopped there is nothing to decode. */
  lemma NothingUnreadable(key: RsaKey, input: seq<byte>)
    requires key.Valid()
    ensures Decoded(key, Unreadable(key, input)) == []
  {
    StopsAtUnreadable(key, input);
  }

  lemma OneBlock(key: RsaKey, block: seq<byte>)
    requires key.len >= 3 && |block| == key.len && Reduced(key, block)
    ensures Decoded(key, block) == DecryptBlock(key, block)
  {
    assert block[..key.len] == block && block[key.len..] == [];
    assert Decoded(key, []) == [];
  }

  /** Less than a block pending is all in the output buffer. */
  lemma PartOfBlock(key: RsaKey, inOut: seq<byte>, rest: seq<byte>, pending: seq<byte>)
    requires key.len >= 2 && inOut + Decoded(key, rest) == pending && |pending| < key.len - 1
    ensures Decoded(key, rest) == [] && inOut == pending
  {
    assert !StartsReadable(key, rest);
  }

  function Total(sizes: seq<nat>): nat {
    if sizes == [] then 0 else sizes[0] + Total(sizes[1..])
  }

  lemma PartTaken(pending: seq<byte>, bytes: seq<byte>, part: seq<byte>, size: nat)
    requires |bytes| + size <= |pending| && bytes == pending[..|bytes|] && part == pending[|bytes|..][..size]
    ensures bytes + part == pending[..|bytes + part|]
    ensures pending[|bytes|..][size..] == pending[|bytes + part|..]
  {
  }

  lemma UnreadableIff(key: RsaKey, input: seq<byte>)
    requires key.Valid()
    ensures Unreadable(key, input) == [] <==> Readable(key, input) == |input|
  {
    hide Readable;
  }

  /** Reads of any sizes within the plaintext and then the rest give the octets one read to the end gives. */
  method ReadInParts(reader: RsaDecryptor, sizes: seq<nat>) returns (r: Outcome<nat>, bytes: seq<byte>)
    requires reader.Valid() && Total(sizes) <= |reader.Pending()|
    modifies reader, reader.out
    ensures reader.Valid() && reader.rest == []
    ensures r.Ok? <==> Unreadable(reader.key, old(reader.rest)) == []
    ensures r.Ok? ==> bytes == old(reader.Pending()) && r.value == |bytes|
  {
    hide Decoded, Readable, Unreadable, RsaDecryptor.Pending, Overwrite;
    UnreadableIff(reader.key, reader.rest);
    ghost var pending, left := reader.Pending(), Unreadable(reader.key, reader.rest);
    assert pending[0..] == pending;
    bytes := [];
    for i := 0 to |sizes|
      invariant reader.Valid() && |bytes| + Total(sizes[i..]) <= |pending|
      invariant bytes == pending[..|bytes|] && reader.Pending() == pending[|bytes|..]
      invariant Unreadable(reader.key, reader.rest) == left
    {
      assert sizes[i..][1..] == sizes[i + 1..];
      var buf := new byte[sizes[i]](_ => 0);
      var read := reader.Read(buf);
      PartTaken(pending, bytes, buf[..], sizes[i]);
      bytes := bytes + buf[..];
    }
    UnreadableIff(reader.key, reader.rest);
    var end, full := reader.ReadToEnd(bytes);
    assert bytes + pending[|bytes|..] == pending;
    r := if end.Ok? then Ok(|bytes| + end.value) else end;
    bytes := full;
  }
}

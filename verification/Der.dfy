/** Reading an RSA public key from its DER form (appendix A.1.1 of RFC 8017). */
module Der {
  import opened Bytes
  import opened Octets
  import opened Rsa

  const DER_INT: byte := 0x02
  const DER_SEQ: byte := 0x30

  /** A value and the octets left behind it. */
  datatype Taken<+T> = Taken(value: T, rest: seq<byte>)

  // ---- what the reader accepts ----

  /** A length: one octet below 0x80, or a count of octets that hold it, of which a machine word keeps
      the low 64 bits. */
  function ReadLength(der: seq<byte>): Option<Taken<u64>> {
    if der == [] then None
    else if der[0] < 0x80 then Some(Taken(der[0], der[1..]))
    else
      var count := der[0] % 0x80;
      if |der| - 1 < count then None
      else Some(Taken(BeValue(der[1..1 + count]) % U64_LIMIT, der[1 + count..]))
  }

  /** The octets of an integer without one leading zero. A zero octet behind a length of zero makes the
      length wrap round to one no input has. */
  function ReadInteger(der: seq<byte>): Option<Taken<seq<byte>>> {
    if der == [] || der[0] != DER_INT then None
    else
      match ReadLength(der[1..])
      case None => None
      case Some(Taken(len, rest)) =>
        var padded := rest != [] && rest[0] == 0;
        var body := if padded then rest[1..] else rest;
        if padded && len == 0 then None
        else
          var n := if padded then len - 1 else len;
          if |body| < n then None else Some(Taken(body[..n], body[n..]))
  }

  function ReadKey(der: seq<byte>): Option<RsaKey> {
    if der == [] || der[0] != DER_SEQ then None
    else
      match ReadLength(der[1..])
      case None => None
      case Some(Taken(_, afterLength)) =>
        match ReadInteger(afterLength)
        case None => None
        case Some(Taken(n, afterN)) =>
          match ReadInteger(afterN)
          case None => None
          case Some(Taken(e, _)) => if n == [] then None else Some(RsaKey(BeValue(n), BeValue(e), |n|))
  }

  method DecodeDerLength(der: seq<byte>) returns (r: Option<Taken<u64>>)
    ensures r == ReadLength(der)
  {
    if der == [] {
      return None;
    }
    var first := der[0];
    if first < 0x80 {
      return Some(Taken(first, der[1..]));
    }
    var count := first % 0x80;
    if |der| - 1 < count {
      return None;
    }
    var octets := der[1..1 + count];
    var length: u64 := 0;
    for i := 0 to |octets|
      invariant length == BeValue(octets[..i]) % U64_LIMIT
    {
      ShiftedIn(BeValue(octets[..i]), octets[i]);
      assert octets[..i + 1][..i] == octets[..i];
      length := length * 256 % U64_LIMIT + octets[i];
    }
    assert octets[..|octets|] == octets;
    r := Some(Taken(length, der[1 + count..]));
  }

  /** Shifting a word left by an octet and setting its low octet, on numbers. */
  lemma ShiftedIn(v: nat, b: byte)
    ensures v % U64_LIMIT * 256 % U64_LIMIT + b == (v * 256 + b) % U64_LIMIT
  {
    var q, r := v / U64_LIMIT, v % U64_LIMIT;
    var q2, r2 := r * 256 / U64_LIMIT, r * 256 % U64_LIMIT;
    assert v * 256 + b == U64_LIMIT * (256 * q + q2) + (r2 + b);
    assert r2 % 256 == 0;
    RemainderIs(v * 256 + b, U64_LIMIT, 256 * q + q2, r2 + b);
  }

  method DecodeDerInteger(der: seq<byte>) returns (r: Option<Taken<seq<byte>>>)
    ensures r == ReadInteger(der)
  {
    if der == [] || der[0] != DER_INT {
      return None;
    }
    var decoded := DecodeDerLength(der[1..]);
    if decoded.None? {
      return None;
    }
    var length, rest := decoded.value.value, decoded.value.rest;
    if rest != [] && rest[0] == 0 {
      rest := rest[1..];
      if length == 0 {
        return None;
      }
      length := length - 1;
    }
    if |rest| < length {
      return None;
    }
    r := Some(Taken(rest[..length], rest[length..]));
  }

  method DecodeFromDer(der: seq<byte>) returns (r: Option<RsaKey>)
    ensures r == ReadKey(der)
  {
    if der == [] || der[0] != DER_SEQ {
      return None;
    }
    var total := DecodeDerLength(der[1..]);
    if total.None? {
      return None;
    }
    var n := DecodeDerInteger(total.value.rest);
    if n.None? {
      return None;
    }
    var e := DecodeDerInteger(n.value.rest);
    if e.None? || n.value.value == [] {
      return None;
    }
    var nLimbs := FromBytesBe(n.value.value);
    var eLimbs := FromBytesBe(e.value.value);
    r := Some(RsaKey(LimbsValue(nLimbs), LimbsValue(eLimbs), |n.value.value|));
  }

  // ---- the encoding it reads back (sections 8.1.3 and 8.3 of X.690) ----

  /** How many octets a value needs. */
  function OctetLength(n: nat): nat {
    if n == 0 then 0 else 1 + OctetLength(n / 256)
  }

  function EncodeLength(len: nat): seq<byte>
    requires len < U64_LIMIT
  {
    OctetLengthBound(len, LIMB_SIZE);
    if len < 0x80 then [len] else [0x80 + OctetLength(len)] + ToBe(len, OctetLength(len))
  }

  /** Two's complement: a zero octet in front where the first bit would read as a sign. */
  function IntegerContent(n: nat): (s: seq<byte>)
    requires n > 0
    ensures |s| > 0
  {
    var octets := ToBe(n, OctetLength(n));
    if octets[0] >= 0x80 then [0] + octets else octets
  }

  predicate Encodable(n: nat) {
    n > 0 && OctetLength(n) < U64_LIMIT - 1
  }

  function EncodeInteger(n: nat): seq<byte>
    requires Encodable(n)
  {
    [DER_INT] + EncodeLength(|IntegerContent(n)|) + IntegerContent(n)
  }

  /** Two integers behind each other. */
  function KeyContent(n: nat, e: nat): seq<byte>
    requires Encodable(n) && Encodable(e)
  {
    EncodeInteger(n) + EncodeInteger(e)
  }

  function EncodeKey(n: nat, e: nat): seq<byte>
    requires Encodable(n) && Encodable(e) && |KeyContent(n, e)| < U64_LIMIT
  {
    [DER_SEQ] + EncodeLength(|KeyContent(n, e)|) + KeyContent(n, e)
  }

  /** `OctetLength` octets are enough, and one less is not. */
  lemma {:induction false} OctetLengthExact(n: nat)
    ensures n < Power(256, OctetLength(n))
    ensures n > 0 ==> Power(256, OctetLength(n) - 1) <= n
  {
    if n == 0 {
    } else {
      OctetLengthExact(n / 256);
      if n / 256 > 0 {
        assert Power(256, OctetLength(n) - 1) == 256 * Power(256, OctetLength(n / 256) - 1);
      } else {
        assert OctetLength(n) == 1 && Power(256, 0) == 1;
      }
    }
  }

  lemma OctetLengthBound(n: nat, len: nat)
    requires n < U64_LIMIT
    ensures OctetLength(n) <= LIMB_SIZE
  {
    OctetLengthExact(n);
    LimbIsEightOctets();
    if OctetLength(n) > LIMB_SIZE {
      PowerMonotone(LIMB_SIZE, OctetLength(n) - 1);
    }
  }

  /** The minimal octets of a value do not start with a zero, and have that value. */
  lemma {:induction false} MinimalOctets(n: nat)
    requires n > 0
    ensures ToBe(n, OctetLength(n))[0] != 0
    ensures BeValue(ToBe(n, OctetLength(n))) == n
  {
    FirstOctet(n);
    OctetLengthExact(n);
    BeValueOfToBe(n, OctetLength(n));
    SmallMod(n, Power(256, OctetLength(n)));
  }

  lemma {:induction false} FirstOctet(n: nat)
    requires n > 0
    ensures ToBe(n, OctetLength(n))[0] != 0
  {
    if n / 256 > 0 { FirstOctet(n / 256); }
  }

  lemma LengthRoundTrip(len: nat, more: seq<byte>)
    requires len < U64_LIMIT
    ensures ReadLength(EncodeLength(len) + more) == Some(Taken(len, more))
  {
    if len < 0x80 {
      assert ([len] + more)[1..] == more;
    } else {
      LongLengthShape(len);
      hide BeValue, ToBe, OctetLength, ReadLength, EncodeLength;
      MinimalOctets(len);
      LongLengthTaken(OctetLength(len), ToBe(len, OctetLength(len)), more);
      SmallMod(len, U64_LIMIT);
    }
  }

  lemma LongLengthShape(len: nat)
    requires 0x80 <= len < U64_LIMIT
    ensures 0 < OctetLength(len) <= LIMB_SIZE
    ensures EncodeLength(len) == [0x80 + OctetLength(len)] + ToBe(len, OctetLength(len))
  {
    OctetLengthBound(len, LIMB_SIZE);
    PositiveLength(len);
    hide OctetLength, ToBe;
  }

  lemma LongLengthTaken(k: nat, octets: seq<byte>, more: seq<byte>)
    requires 0 < k == |octets| < 0x80
    ensures ReadLength([0x80 + k] + octets + more) == Some(Taken(BeValue(octets) % U64_LIMIT, more))
  {
    hide BeValue;
    var s := [0x80 + k] + octets + more;
    assert s[0] % 0x80 == k && s[1..1 + k] == octets && s[1 + k..] == more;
  }

  lemma ContentShape(n: nat)
    requires Encodable(n)
    ensures var octets, content := ToBe(n, OctetLength(n)), IntegerContent(n);
            && octets != [] && octets[0] != 0 && |content| < U64_LIMIT
            && (content == octets || content == [0] + octets)
  {
    PositiveLength(n);
    FirstOctet(n);
    hide ToBe, OctetLength;
  }

  lemma Tail(tag: byte, a: seq<byte>, b: seq<byte>, more: seq<byte>)
    ensures ([tag] + a + b + more)[1..] == a + (b + more)
  {
  }

  lemma IntegerRoundTrip(n: nat, more: seq<byte>)
    requires Encodable(n)
    ensures ReadInteger(EncodeInteger(n) + more) == Some(Taken(ToBe(n, OctetLength(n)), more))
  {
    hide ReadLength, ReadInteger, EncodeLength, OctetLength, ToBe, IntegerContent;
    ContentShape(n);
    var content := IntegerContent(n);
    Tail(DER_INT, EncodeLength(|content|), content, more);
    LengthRoundTrip(|content|, content + more);
    IntegerTaken(EncodeInteger(n) + more, content, ToBe(n, OctetLength(n)), more);
  }

  /** With or without a padding zero, the octets are what is taken. */
  lemma IntegerTaken(der: seq<byte>, content: seq<byte>, octets: seq<byte>, more: seq<byte>)
    requires octets != [] && octets[0] != 0 && (content == octets || content == [0] + octets)
    requires |content| < U64_LIMIT
    requires der != [] && der[0] == DER_INT && ReadLength(der[1..]) == Some(Taken(|content|, content + more))
    ensures ReadInteger(der) == Some(Taken(octets, more))
  {
    hide ReadLength;
    var rest := content + more;
    if content == octets {
      assert rest[0] != 0;
    } else {
      assert rest[0] == 0 && rest[1..] == octets + more;
    }
    assert (octets + more)[..|octets|] == octets && (octets + more)[|octets|..] == more;
  }

  /** A key comes back from its encoding, with the minimal octet length of its modulus, whatever
      follows. */
  lemma KeyRoundTrip(n: nat, e: nat, more: seq<byte>)
    requires Encodable(n) && Encodable(e) && |KeyContent(n, e)| < U64_LIMIT
    ensures var key := RsaKey(n, e, OctetLength(n));
            ReadKey(EncodeKey(n, e) + more) == Some(key) && Minimal(key)
  {
    hide ReadLength, ReadInteger, EncodeLength, EncodeInteger, OctetLength, ToBe, BeValue, Power;
    var s := EncodeKey(n, e) + more;
    assert s[1..] == EncodeLength(|KeyContent(n, e)|) + (KeyContent(n, e) + more);
    LengthRoundTrip(|KeyContent(n, e)|, KeyContent(n, e) + more);
    assert KeyContent(n, e) + more == EncodeInteger(n) + (EncodeInteger(e) + more);
    IntegerRoundTrip(n, EncodeInteger(e) + more);
    IntegerRoundTrip(e, more);
    MinimalOctets(n);
    MinimalOctets(e);
    OctetLengthExact(n);
    PositiveLength(n);
  }

  lemma PositiveLength(n: nat)
    requires n > 0
    ensures OctetLength(n) > 0
  {
  }

  /** The octets of an encoded key: 0x30 and the length of two integers, each of them 0x02, a length and its octets,
      a zero in front where the first is 0x80 or more; lengths below 0x80 are one octet. */
  lemma KeyOctets(n: nat, e: nat)
    requires Encodable(n) && Encodable(e) && |KeyContent(n, e)| < U64_LIMIT
    ensures var a, b := ToBe(n, OctetLength(n)), ToBe(e, OctetLength(e));
            && a != [] && a[0] != 0 && BeValue(a) == n && b != [] && b[0] != 0 && BeValue(b) == e
            && EncodeKey(n, e) == [0x30] + EncodeLength(|KeyContent(n, e)|) + KeyContent(n, e)
            && KeyContent(n, e) == IntegerOctets(a) + IntegerOctets(b)
    ensures forall len: u64 :: len < 0x80 ==> EncodeLength(len) == [len]
    ensures forall len: u64 :: 0x80 <= len ==>
              var octets := ToBe(len, OctetLength(len));
              && EncodeLength(len) == [0x80 + |octets|] + octets && octets[0] != 0 && BeValue(octets) == len
  {
    hide ToBe, BeValue, OctetLength;
    MinimalOctets(n);
    MinimalOctets(e);
    PositiveLength(n);
    PositiveLength(e);
    forall len: u64 | 0x80 <= len
      ensures var octets := ToBe(len, OctetLength(len));
              octets != [] && EncodeLength(len) == [0x80 + |octets|] + octets && octets[0] != 0
                  && BeValue(octets) == len
    {
      LongLengthShape(len);
      MinimalOctets(len);
    }
  }

  /** An integer around its octets. */
  function IntegerOctets(octets: seq<byte>): seq<byte>
    requires octets != [] && |octets| < U64_LIMIT - 1
  {
    var content := if octets[0] < 0x80 then octets else [0] + octets;
    [0x02] + EncodeLength(|content|) + content
  }

  /** A length octet by octet: below 0x80 itself; from 0x80 on the number of octets, none for 0x80 itself, that hold it,
      wrapped to 64 bits; and nothing where these are not all there. */
  lemma LengthOctets(first: byte, rest: seq<byte>)
    ensures ReadLength([]) == None
    ensures first < 0x80 ==> ReadLength([first] + rest) == Some(Taken(first, rest))
    ensures first >= 0x80 ==>
              ReadLength([first] + rest)
              == if |rest| < first - 0x80 then None
                 else Some(Taken(BeValue(rest[..first - 0x80]) % 0x1_0000_0000_0000_0000, rest[first - 0x80..]))
  {
    var der := [first] + rest;
    assert der[1..] == rest;
    if |rest| >= first - 0x80 >= 0 {
      assert der[1..1 + (first - 0x80)] == rest[..first - 0x80] && der[1 + (first - 0x80)..] == rest[first - 0x80..];
    }
  }

  /** An integer octet by octet: 0x02, a length, and as many octets, of which one leading zero is dropped; nothing
      where they are not all there, or a zero stands behind a length of zero. */
  lemma IntegerOctetsRead(tag: byte, lengths: seq<byte>, len: u64, body: seq<byte>)
    requires ReadLength(lengths + body) == Some(Taken(len, body))
    ensures ReadInteger([tag] + (lengths + body))
            == if tag != 0x02 then None
               else if body != [] && body[0] == 0 then
                 if len == 0 || |body| < len then None else Some(Taken(body[1..len], body[len..]))
               else if |body| < len then None
               else Some(Taken(body[..len], body[len..]))
  {
    hide ReadLength;
    assert ([tag] + (lengths + body))[1..] == lengths + body;
    if body != [] && body[0] == 0 && 0 < len <= |body| {
      assert body[1..][..len - 1] == body[1..len] && body[1..][len - 1..] == body[len..];
    }
  }

  /** Every number of at most 2^63 octets can be encoded. */
  lemma EncodableIfShort(n: nat, k: nat)
    requires 0 < n < Power(256, k) && k <= 0x8000_0000_0000_0000
    ensures Encodable(n)
  {
    hide Power;
    OctetLengthExact(n);
    if OctetLength(n) > k { PowerMonotone(k, OctetLength(n) - 1); }
  }

  /** What does not begin like a key is refused: 0x30, a length, 0x02. */
  lemma TagsNeeded(der: seq<byte>)
    requires ReadKey(der).Some?
    ensures |der| > 2 && der[0] == 0x30
    ensures der[1] < 0x80 ==> der[2] == 0x02
    ensures der[1] >= 0x80 ==> |der| > 2 + (der[1] - 0x80) && der[2 + (der[1] - 0x80)] == 0x02
  {
    hide BeValue;
  }

  /** Any key the reader accepts has a usable block length, and a modulus that fits it. */
  lemma AcceptedKeyFits(der: seq<byte>)
    requires ReadKey(der).Some?
    ensures var key := ReadKey(der).value; key.Valid() && key.n < Power(256, key.len)
  {
    hide ReadLength, BeValue, Power;
    var afterLength := ReadLength(der[1..]).value.rest;
    var n := ReadInteger(afterLength).value.value;
    BeValueBound(n);
  }

  /** A text signed with the private exponent is decoded by the key read from the public key's DER form. */
  lemma SignedTextComesBack(key: RsaKey, d: nat, more: seq<byte>, text: seq<byte>)
    requires Encodable(key.n) && Encodable(key.e) && |KeyContent(key.n, key.e)| < U64_LIMIT
    requires key.len == OctetLength(key.n) > 1 && Inverse(key, d) && |text| % (key.len - 1) == 0
    ensures ReadKey(EncodeKey(key.n, key.e) + more) == Some(key)
    ensures Readable(key, Encoded(key, d, text)) == |Encoded(key, d, text)|
    ensures Decoded(key, Encoded(key, d, text)) == text
  {
    hide *;
    assert key == RsaKey(key.n, key.e, key.len);
    KeyRoundTrip(key.n, key.e, more);
    DecodingUndoesSigning(key, d, text);
  }
}

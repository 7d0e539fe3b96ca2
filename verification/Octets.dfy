/** Big-endian octet strings as numbers (sections 4.1 and 4.2 of RFC 8017), converted through 64-bit
    limbs. */
module Octets {
  import opened Bytes

  const LIMB_SIZE := 8
  const LIMB := U64_LIMIT

  function Power(b: nat, n: nat): (p: nat)
    requires b > 0
    ensures p > 0
  {
    if n == 0 then 1 else MulPositive(b, Power(b, n - 1)); b * Power(b, n - 1)
  }

  lemma MulPositive(a: nat, b: nat)
    requires a > 0 && b > 0
    ensures a * b > 0
  {
  }

  /** OS2IP: the value of an octet string, most significant octet first. */
  function BeValue(s: seq<byte>): nat {
    if s == [] then 0 else BeValue(s[..|s| - 1]) * 256 + s[|s| - 1]
  }

  /** I2OSP without its range check: the low `len` octets of `n`. */
  function ToBe(n: nat, len: nat): (s: seq<byte>)
    ensures |s| == len
  {
    if len == 0 then [] else ToBe(n / 256, len - 1) + [n % 256]
  }

  lemma {:induction false} PowerAdd(b: nat, m: nat, n: nat)
    requires b > 0
    ensures Power(b, m + n) == Power(b, m) * Power(b, n)
  {
    if m == 0 {
    } else {
      PowerAdd(b, m - 1, n);
      assert b * (Power(b, m - 1) * Power(b, n)) == (b * Power(b, m - 1)) * Power(b, n) by {
        MulAssoc(b, Power(b, m - 1), Power(b, n));
      }
    }
  }

  lemma MulAssoc(a: int, b: int, c: int)
    ensures a * (b * c) == (a * b) * c
  {
  }

  lemma MulDistribute(a: int, b: int, c: int)
    ensures (a + b) * c == a * c + b * c
  {
  }

  /** Concatenation shifts the first part. */
  lemma {:induction false} BeValueConcat(a: seq<byte>, b: seq<byte>)
    ensures BeValue(a + b) == BeValue(a) * Power(256, |b|) + BeValue(b)
    decreases |b|
  {
    if b == [] {
      assert a + b == a;
    } else {
      var front, last := b[..|b| - 1], b[|b| - 1];
      assert (a + b)[..|a + b| - 1] == a + front && (a + b)[|a + b| - 1] == last;
      BeValueConcat(a, front);
      var v, p := BeValue(a), Power(256, |front|);
      assert (v * p + BeValue(front)) * 256 + last == v * (256 * p) + (BeValue(front) * 256 + last) by {
        MulAssoc(v, p, 256);
        MulDistribute(v * p, BeValue(front), 256);
      }
    }
  }

  lemma {:induction false} BeValueBound(s: seq<byte>)
    ensures BeValue(s) < Power(256, |s|)
  {
    if s == [] {
    } else {
      BeValueBound(s[..|s| - 1]);
    }
  }

  /** Writing a value in as many octets as it was read from gives the octets back. */
  lemma {:induction false} ToBeOfBeValue(s: seq<byte>)
    ensures ToBe(BeValue(s), |s|) == s
  {
    if s == [] {
    } else {
      var front, last := s[..|s| - 1], s[|s| - 1];
      ToBeOfBeValue(front);
      assert s == front + [last];
      assert BeValue(s) / 256 == BeValue(front) && BeValue(s) % 256 == last;
    }
  }

  lemma DivThenMod(n: nat, p: nat)
    requires p > 0
    ensures n % (256 * p) == (n / 256) % p * 256 + n % 256
  {
    var q, r := (n / 256) / p, (n / 256) % p;
    assert n / 256 == p * q + r;
    assert n == 256 * (n / 256) + n % 256;
    assert n == (256 * p) * q + (r * 256 + n % 256) by {
      MulAssoc(256, p, q);
    }
    assert 0 <= r * 256 + n % 256 < 256 * p;
    RemainderIs(n, 256 * p, q, r * 256 + n % 256);
  }

  lemma NonZeroMultiple(m: int, d: int)
    requires m > 0
    ensures d >= 1 ==> m * d >= m
    ensures d <= -1 ==> m * d <= -m
  {
  }

  lemma RemainderIs(n: int, m: int, q: int, r: int)
    requires m > 0 && n == m * q + r && 0 <= r < m
    ensures n % m == r && n / m == q
  {
    var d := n / m - q;
    assert n == m * (n / m) + n % m;
    assert m * d == m * (n / m) - m * q;
    NonZeroMultiple(m, d);
  }

  lemma SmallMod(n: nat, m: nat)
    requires n < m
    ensures n % m == n
  {
    RemainderIs(n, m, 0, n);
  }

  /** Reading back `len` octets of a value gives it modulo 256^len. */
  lemma {:induction false} BeValueOfToBe(n: nat, len: nat)
    ensures BeValue(ToBe(n, len)) == n % Power(256, len)
  {
    if len == 0 {
    } else {
      BeValueOfToBe(n / 256, len - 1);
      var s := ToBe(n, len);
      assert s[..len - 1] == ToBe(n / 256, len - 1) && s[len - 1] == n % 256;
      DivThenMod(n, Power(256, len - 1));
    }
  }

  lemma {:induction false} DivPower(n: nat, len: nat)
    ensures (n / 256) / Power(256, len) == n / Power(256, len + 1)
  {
    var p := Power(256, len);
    var q, r := (n / 256) / p, (n / 256) % p;
    assert n / 256 == p * q + r;
    assert n == 256 * (n / 256) + n % 256;
    assert n == (256 * p) * q + (256 * r + n % 256) by { MulAssoc(256, p, q); }
    RemainderIs(n, 256 * p, q, 256 * r + n % 256);
  }

  /** More octets: the low ones, and the rest of the value before them. */
  lemma {:induction false} ToBeSplit(n: nat, high: nat, low: nat)
    ensures ToBe(n, high + low) == ToBe(n / Power(256, low), high) + ToBe(n, low)
    decreases low
  {
    if low == 0 {
    } else {
      ToBeSplit(n / 256, high, low - 1);
      DivPower(n, low - 1);
      assert ToBe(n, high + low) == ToBe(n / 256, high + (low - 1)) + [n % 256];
    }
  }

  /** Higher digits do not show in the low octets. */
  lemma {:induction false} ToBeMod(n: nat, len: nat, more: nat)
    requires len <= more
    ensures ToBe(n % Power(256, more), len) == ToBe(n, len)
    decreases len
  {
    if len == 0 {
    } else {
      DivThenMod(n, Power(256, more - 1));
      ToBeMod(n / 256, len - 1, more - 1);
      var m := n % Power(256, more);
      assert m == (n / 256) % Power(256, more - 1) * 256 + n % 256;
      assert m / 256 == (n / 256) % Power(256, more - 1) && m % 256 == n % 256;
    }
  }

  // ---- limbs ----

  /** The number with the given limbs, least significant first. */
  function LimbsValue(limbs: seq<u64>): nat {
    if limbs == [] then 0 else limbs[0] + LIMB * LimbsValue(limbs[1..])
  }

  lemma {:induction false} LimbsAppend(limbs: seq<u64>, limb: u64)
    ensures LimbsValue(limbs + [limb]) == LimbsValue(limbs) + limb * Power(LIMB, |limbs|)
  {
    if limbs == [] {
      assert (limbs + [limb])[1..] == [];
      assert LimbsValue([]) == 0;
    } else {
      assert (limbs + [limb])[1..] == limbs[1..] + [limb];
      LimbsAppend(limbs[1..], limb);
      var v, p := LimbsValue(limbs[1..]), Power(LIMB, |limbs| - 1);
      assert LIMB * (v + limb * p) == LIMB * v + limb * (LIMB * p);
    }
  }

  lemma LimbIsEightOctets()
    ensures Power(256, LIMB_SIZE) == LIMB
  {
    assert Power(256, 0) == 1;
    assert Power(256, 1) == 0x100;
    assert Power(256, 2) == 0x1_0000;
    assert Power(256, 3) == 0x100_0000;
    assert Power(256, 4) == 0x1_0000_0000;
    assert Power(256, 5) == 0x100_0000_0000;
    assert Power(256, 6) == 0x1_0000_0000_0000;
    assert Power(256, 7) == 0x100_0000_0000_0000;
  }

  /** `natural_from_bytes_be`: chunks of eight octets from the end become limbs, the rest a last limb. */
  method FromBytesBe(bytes: seq<byte>) returns (limbs: seq<u64>)
    ensures LimbsValue(limbs) == BeValue(bytes)
  {
    var rest := bytes;
    limbs := [];
    LimbIsEightOctets();
    while |rest| >= LIMB_SIZE
      invariant LimbsValue(limbs) + BeValue(rest) * Power(LIMB, |limbs|) == BeValue(bytes)
    {
      var front, chunk := rest[..|rest| - LIMB_SIZE], rest[|rest| - LIMB_SIZE..];
      BeValueBound(chunk);
      var limb: u64 := BeValue(chunk);
      LimbStep(limbs, front, chunk);
      assert rest == front + chunk;
      limbs := limbs + [limb];
      rest := front;
    }
    var limb: nat := 0;
    for i := 0 to |rest|
      invariant limb == BeValue(rest[..i])
    {
      assert rest[..i + 1][..i] == rest[..i];
      limb := limb * 256 + rest[i];
    }
    assert rest[..|rest|] == rest;
    BeValueBound(rest);
    PowerMonotone(|rest|, LIMB_SIZE);
    LimbsAppend(limbs, limb);
    limbs := limbs + [limb];
  }

  lemma {:induction false} PowerMonotone(m: nat, n: nat)
    requires m <= n
    ensures Power(256, m) <= Power(256, n)
  {
    if m >= n {
    } else {
      PowerMonotone(m, n - 1);
    }
  }

  lemma LimbStep(limbs: seq<u64>, front: seq<byte>, chunk: seq<byte>)
    requires |chunk| == LIMB_SIZE && BeValue(chunk) < LIMB
    ensures LimbsValue(limbs + [BeValue(chunk)]) + BeValue(front) * Power(LIMB, |limbs| + 1)
            == LimbsValue(limbs) + BeValue(front + chunk) * Power(LIMB, |limbs|)
  {
    hide BeValue, LimbsValue, Power;
    LimbIsEightOctets();
    LimbsAppend(limbs, BeValue(chunk));
    BeValueConcat(front, chunk);
    NextPower(|limbs|);
    ShiftLimb(LimbsValue(limbs), BeValue(front), BeValue(chunk), Power(LIMB, |limbs|),
              LimbsValue(limbs + [BeValue(chunk)]), BeValue(front + chunk), Power(LIMB, |limbs| + 1));
  }

  lemma ShiftLimb(value: nat, f: nat, c: nat, p: nat, longer: nat, both: nat, next: nat)
    requires longer == value + c * p && both == f * LIMB + c && next == LIMB * p
    ensures longer + f * next == value + both * p
  {
    MulAssoc(f, LIMB, p);
    MulDistribute(f * LIMB, c, p);
  }

  lemma NextPower(n: nat)
    ensures Power(LIMB, n + 1) == LIMB * Power(LIMB, n)
  {
  }

  /** `natural_to_bytes_be_in`: fill `out[lo..hi]` from its end, limb by limb; a first, shorter chunk
      takes the low octets of its limb. */
  method ToBytesBeIn(n: nat, out: array<byte>, lo: nat, hi: nat)
    requires lo <= hi <= out.Length
    modifies out
    ensures out[..] == Overwrite(old(out[..]), lo, ToBe(n, hi - lo))
  {
    hide Overwrite, ToBe, Power;
    ghost var was := out[..];
    var tail := hi;
    var rest := n;
    NothingWritten(was, n, hi);
    while tail - lo >= LIMB_SIZE
      invariant lo <= tail <= hi
      invariant out[..] == Overwrite(was, tail, ToBe(n, hi - tail))
      invariant rest == n / Power(256, hi - tail)
    {
      ChunkWritten(was, n, rest, LIMB_SIZE, tail, hi);
      CopyInto(out, tail - LIMB_SIZE, ToBe(rest % LIMB, LIMB_SIZE)[0..]);
      DivTwice(n, hi - tail);
      rest := rest / LIMB;
      tail := tail - LIMB_SIZE;
    }
    if lo < tail {
      ChunkWritten(was, n, rest, tail - lo, tail, hi);
      CopyInto(out, lo, ToBe(rest % LIMB, LIMB_SIZE)[LIMB_SIZE - (tail - lo)..]);
    }
  }

  lemma NothingWritten(s: seq<byte>, n: nat, hi: nat)
    requires hi <= |s|
    ensures s == Overwrite(s, hi, ToBe(n, 0)) && n == n / Power(256, 0)
  {
    assert Power(256, 0) == 1;
  }

  /** The low octets of the next limb are the next higher octets of the whole number. */
  lemma ChunkWritten(was: seq<byte>, n: nat, rest: nat, len: nat, tail: nat, hi: nat)
    requires 0 < len <= LIMB_SIZE && len <= tail <= hi <= |was|
    requires rest == n / Power(256, hi - tail)
    ensures var bytes := ToBe(rest % LIMB, LIMB_SIZE)[LIMB_SIZE - len..];
            Overwrite(Overwrite(was, tail, ToBe(n, hi - tail)), tail - len, bytes)
            == Overwrite(was, tail - len, ToBe(n, hi - (tail - len)))
  {
    hide Overwrite, ToBe, Power;
    LimbIsEightOctets();
    var bytes := ToBe(rest % LIMB, LIMB_SIZE)[LIMB_SIZE - len..];
    ToBeSplit(rest % LIMB, LIMB_SIZE - len, len);
    assert bytes == ToBe(rest % LIMB, len);
    ToBeMod(rest, len, LIMB_SIZE);
    ToBeSplit(n, len, hi - tail);
    assert ToBe(n, hi - (tail - len)) == bytes + ToBe(n, hi - tail) by {
      assert len + (hi - tail) == hi - (tail - len);
    }
    OverwriteBefore(was, tail - len, bytes, ToBe(n, hi - tail));
  }

  lemma OverwriteBefore(s: seq<byte>, at: nat, t: seq<byte>, u: seq<byte>)
    requires at + |t| + |u| <= |s|
    ensures Overwrite(Overwrite(s, at + |t|, u), at, t) == Overwrite(s, at, t + u)
  {
  }

  lemma DivTwice(n: nat, m: nat)
    ensures n / Power(256, m) / LIMB == n / Power(256, m + LIMB_SIZE)
  {
    LimbIsEightOctets();
    PowerAdd(256, m, LIMB_SIZE);
    var p := Power(256, m);
    var q, r := n / p / LIMB, n / p % LIMB;
    assert n / p == LIMB * q + r;
    assert n == p * (n / p) + n % p;
    assert p * (LIMB * q + r) == (p * LIMB) * q + p * r by {
      MulAssoc(p, LIMB, q);
      MulDistribute(LIMB * q, r, p);
    }
    assert p * r + n % p < p * LIMB by {
      assert p * r <= p * (LIMB - 1) by { MulMonotone(p, r, LIMB - 1); }
      assert p * (LIMB - 1) == p * LIMB - p;
    }
    RemainderIs(n, p * LIMB, q, p * r + n % p);
  }

  lemma MulMonotone(a: nat, x: int, y: int)
    requires x <= y
    ensures a * x <= a * y
  {
  }

  // ---- remainders ----

  lemma SameRemainder(a: nat, b: nat, q: int, m: nat)
    requires m > 0 && a == b + m * q
    ensures a % m == b % m
  {
    assert b == m * (b / m) + b % m;
    assert m * (b / m) + m * q == m * (b / m + q);
    RemainderIs(a, m, b / m + q, b % m);
  }

  lemma MulMod(a: nat, b: nat, m: nat)
    requires m > 0
    ensures a % m * b >= 0
    ensures (a % m * b) % m == (a * b) % m
  {
    MulNonNegative(a % m, b);
    MulNonNegative(a, b);
    assert a == a % m + m * (a / m);
    assert (a % m + m * (a / m)) * b == a % m * b + m * (a / m * b) by {
      MulDistribute(a % m, m * (a / m), b);
      MulAssoc(m, a / m, b);
    }
    SameRemainder(a * b, a % m * b, a / m * b, m);
  }

  lemma MulNonNegative(a: nat, b: nat)
    ensures a * b >= 0
  {
  }
}

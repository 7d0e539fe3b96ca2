/** Integers of odd widths (`U16`, `U24`, `U32`, `U64`) stored as octets in the machine's own order. */
module Unaligned {
  import opened Bytes
  import opened Octets

  /** The low `n` octets of `v`, least significant first. */
  function ToLe(v: nat, n: nat): (s: seq<byte>)
    ensures |s| == n
  {
    if n == 0 then [] else [v % 256] + ToLe(v / 256, n - 1)
  }

  function FromLe(s: seq<byte>): (v: nat)
  {
    if s == [] then 0 else s[0] + 256 * FromLe(s[1..])
  }

  datatype Order = LittleEndian | BigEndian {
    function Read(s: seq<byte>): nat { if LittleEndian? then FromLe(s) else BeValue(s) }

    function Write(v: nat, n: nat): (s: seq<byte>)
      ensures |s| == n
    {
      if LittleEndian? then ToLe(v, n) else ToBe(v, n)
    }
  }

  lemma {:induction false} LeRoundTrip(v: nat, n: nat)
    ensures FromLe(ToLe(v, n)) == v % Power(256, n)
  {
    if n == 0 {
    } else {
      LeRoundTrip(v / 256, n - 1);
      assert ToLe(v, n)[1..] == ToLe(v / 256, n - 1);
      DivThenMod(v, Power(256, n - 1));
    }
  }

  /** What is written in `n` octets is read back modulo what they hold. */
  lemma WordRoundTrip(order: Order, v: nat, n: nat)
    ensures order.Read(order.Write(v, n)) == v % Power(256, n)
  {
    LeRoundTrip(v, n);
    BeValueOfToBe(v, n);
  }

  /** Where the octets that are kept lie in a word of `size` octets. */
  function Place(order: Order, size: nat, width: nat): nat
    requires width <= size
  {
    if order.BigEndian? then size - width else 0
  }

  /** `new`: copy the low `width` octets of a word of `size`. */
  method New(order: Order, value: nat, size: nat, width: nat) returns (bytes: seq<byte>)
    requires width <= size
    ensures bytes == order.Write(value, width)
  {
    hide Order.Write;
    var src := order.Write(value, size);
    var first := Place(order, size, width);
    bytes := Zeros(width);
    for i := 0 to width
      invariant |bytes| == width && bytes[..i] == src[first..first + i]
    {
      bytes := bytes[i := src[first + i]];
      assert bytes[..i + 1] == src[first..first + i] + [src[first + i]] == src[first..first + i + 1];
    }
    assert bytes == bytes[..width];
    LowOctets(order, value, size, width);
  }

  /** `get`: the octets, padded with zeros to `size`, as a value. */
  method Get(order: Order, src: seq<byte>, size: nat) returns (value: nat)
    requires |src| <= size
    ensures value == order.Read(src)
  {
    hide Order.Read;
    var first := Place(order, size, |src|);
    var bytes := Zeros(size);
    for i := 0 to |src|
      invariant |bytes| == size && bytes == Zeros(first) + src[..i] + Zeros(size - first - i)
    {
      bytes := bytes[first + i := src[i]];
      assert bytes == Zeros(first) + src[..i + 1] + Zeros(size - first - (i + 1));
    }
    assert src[..|src|] == src;
    PaddingAddsNothing(order, src, size);
    value := order.Read(bytes);
  }

  lemma LowOctets(order: Order, value: nat, size: nat, width: nat)
    requires width <= size
    ensures var first := Place(order, size, width);
            order.Write(value, size)[first..first + width] == order.Write(value, width)
  {
    LePrefix(value, size, width);
    ToBeSplit(value, size - width, width);
  }

  lemma PaddingAddsNothing(order: Order, src: seq<byte>, size: nat)
    requires |src| <= size
    ensures var first := Place(order, size, |src|);
            order.Read(Zeros(first) + src + Zeros(size - first - |src|)) == order.Read(src)
  {
    if order.BigEndian? {
      BeValueConcat(Zeros(size - |src|), src);
      BeZeros(size - |src|);
      assert Zeros(size - |src|) + src + [] == Zeros(size - |src|) + src;
    } else {
      LeAppendZeros(src, size - |src|);
      assert [] + src + Zeros(size - |src|) == src + Zeros(size - |src|);
    }
  }

  lemma {:induction false} BeZeros(n: nat)
    ensures BeValue(Zeros(n)) == 0
  {
    if n == 0 {
    } else {
      BeZeros(n - 1);
      assert Zeros(n)[..n - 1] == Zeros(n - 1);
    }
  }

  lemma {:induction false} LePrefix(v: nat, n: nat, k: nat)
    requires k <= n
    ensures ToLe(v, n)[..k] == ToLe(v, k)
  {
    if k == 0 {
    } else {
      LePrefix(v / 256, n - 1, k - 1);
    }
  }

  lemma {:induction false} LeAppendZeros(s: seq<byte>, n: nat)
    ensures FromLe(s + Zeros(n)) == FromLe(s)
  {
    if s != [] {
      assert (s + Zeros(n))[1..] == s[1..] + Zeros(n);
      LeAppendZeros(s[1..], n);
    } else {
      assert [] + Zeros(n) == Zeros(n);
      LeZeros(n);
    }
  }

  lemma {:induction false} LeZeros(n: nat)
    ensures FromLe(Zeros(n)) == 0
  {
    if n == 0 {
    } else {
      LeZeros(n - 1);
      assert Zeros(n)[1..] == Zeros(n - 1);
    }
  }

  lemma {:induction false} LeBound(s: seq<byte>)
    ensures FromLe(s) < Power(256, |s|)
  {
    if s == [] {
    } else {
      LeBound(s[1..]);
    }
  }

  lemma PowersOf256()
    ensures Power(256, 3) == 0x100_0000 && Power(256, 4) == U32_LIMIT
  {
    assert Power(256, 0) == 1;
    assert Power(256, 1) == 256;
    assert Power(256, 2) == 0x1_0000;
  }

  /** Three and four octets hold every `U24` and `U32`. */
  lemma WidthsHold(v: u32)
    ensures FromLe(ToLe(v, 4)) == v
    ensures v < 0x100_0000 ==> FromLe(ToLe(v, 3)) == v
  {
    hide ToLe, FromLe;
    PowersOf256();
    LeRoundTrip(v, 4);
    LeRoundTrip(v, 3);
  }

  /** Four digits to base 256, the least first. */
  function Digits(a: int, b: int, c: int, d: int): int {
    a + 0x100 * b + 0x1_0000 * c + 0x100_0000 * d
  }

  /** Four octets, one by one, in either order. */
  lemma FourOctets(s: seq<byte>)
    requires |s| == 4
    ensures LittleEndian.Read(s) == Digits(s[0], s[1], s[2], s[3])
    ensures BigEndian.Read(s) == Digits(s[3], s[2], s[1], s[0])
  {
    LeFour(s);
    BeFour(s);
  }

  lemma LeFour(s: seq<byte>)
    requires |s| == 4
    ensures FromLe(s) == Digits(s[0], s[1], s[2], s[3])
  {
    assert FromLe(s[1..]) == s[1] + 256 * FromLe(s[1..][1..]);
    assert FromLe(s[2..]) == s[2] + 256 * FromLe(s[2..][1..]);
    assert FromLe(s[3..]) == s[3] + 256 * FromLe(s[3..][1..]);
    assert s[1..][1..] == s[2..] && s[2..][1..] == s[3..] && s[3..][1..] == [];
  }

  lemma BeFour(s: seq<byte>)
    requires |s| == 4
    ensures BeValue(s) == Digits(s[3], s[2], s[1], s[0])
  {
    assert s[..3][..2] == s[..2] && s[..2][..1] == s[..1] && s[..1][..0] == [];
    assert BeValue(s[..1]) == s[0];
    assert BeValue(s[..2]) == 256 * BeValue(s[..1]) + s[1];
    assert BeValue(s[..3]) == 256 * BeValue(s[..2]) + s[2];
  }

  lemma LeThree(s: seq<byte>)
    requires |s| == 3
    ensures FromLe(s) == Digits(s[0], s[1], s[2], 0)
  {
    assert FromLe(s[1..]) == s[1] + 256 * FromLe(s[1..][1..]);
    assert FromLe(s[2..]) == s[2] + 256 * FromLe(s[2..][1..]);
    assert s[1..][1..] == s[2..] && s[2..][1..] == [];
  }

  /** Eight octets: the second four count 2^32 times as much in the one order, the first four in the other. */
  lemma EightOctets(s: seq<byte>)
    requires |s| == 8
    ensures LittleEndian.Read(s) == LittleEndian.Read(s[..4]) + 0x1_0000_0000 * LittleEndian.Read(s[4..])
    ensures BigEndian.Read(s) == 0x1_0000_0000 * BigEndian.Read(s[..4]) + BigEndian.Read(s[4..])
  {
    PowersOf256();
    BeValueConcat(s[..4], s[4..]);
    LeConcat(s[..4], s[4..]);
    assert s[..4] + s[4..] == s;
  }

  lemma {:induction false} LeConcat(a: seq<byte>, b: seq<byte>)
    ensures FromLe(a + b) == FromLe(a) + Power(256, |a|) * FromLe(b)
  {
    if a == [] {
      assert a + b == b;
    } else {
      assert (a + b)[1..] == a[1..] + b;
      LeConcat(a[1..], b);
      assert 256 * (Power(256, |a| - 1) * FromLe(b)) == 256 * Power(256, |a| - 1) * FromLe(b) by {
        MulAssoc(256, Power(256, |a| - 1), FromLe(b));
      }
    }
  }
}

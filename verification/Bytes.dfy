/** Octets, machine-word bounds and small helpers shared by every component. */
module Bytes {

  const U32_LIMIT := 0x1_0000_0000
  const U64_LIMIT := 0x1_0000_0000_0000_0000

  type byte = x: int | 0 <= x < 256
  type u32 = x: int | 0 <= x < U32_LIMIT
  type u64 = x: int | 0 <= x < U64_LIMIT

  datatype Option<+T> = None | Some(value: T)

  function Min(a: int, b: int): int { if a <= b then a else b }

  function Max(a: int, b: int): int { if a >= b then a else b }

  /** `n` zero octets: what a fresh `[0; n]` holds. */
  function Zeros(n: nat): (s: seq<byte>)
    ensures |s| == n && forall i :: 0 <= i < n ==> s[i] == 0
  {
    seq(n, _ => 0)
  }

  lemma SliceOfSlice<T>(s: seq<T>, lo: nat, hi: nat, a: nat, b: nat)
    requires lo <= hi <= |s| && a <= b <= hi - lo
    ensures s[lo..hi][a..b] == s[lo + a..lo + b]
  {
    assert |s[lo..hi][a..b]| == |s[lo + a..lo + b]|;
    assert forall i :: 0 <= i < b - a ==> s[lo..hi][a..b][i] == s[lo + a..lo + b][i];
  }

  /** Replace the octets of `s` from `at` on by `t`. */
  function Overwrite(s: seq<byte>, at: nat, t: seq<byte>): (r: seq<byte>)
    requires at + |t| <= |s|
    ensures |r| == |s|
  {
    s[..at] + t + s[at + |t|..]
  }

  lemma OverwriteTwice(s: seq<byte>, at: nat, t: seq<byte>, u: seq<byte>)
    requires at + |t| + |u| <= |s|
    ensures Overwrite(Overwrite(s, at, t), at + |t|, u) == Overwrite(s, at, t + u)
  {
  }

  lemma OverwriteBeyond(s: seq<byte>, at: nat, t: seq<byte>, lo: nat, hi: nat)
    requires at + |t| <= lo <= hi <= |s|
    ensures Overwrite(s, at, t)[lo..hi] == s[lo..hi]
  {
  }

  lemma PrefixOfOverwrite(s: seq<byte>, at: nat, t: seq<byte>, len: nat)
    requires at + |t| <= len <= |s|
    ensures Overwrite(s, at, t)[..len] == Overwrite(s[..len], at, t)
    ensures Overwrite(s, at, t)[len..] == s[len..]
  {
  }

  method CopyInto(target: array<byte>, at: nat, s: seq<byte>)
    requires at + |s| <= target.Length
    modifies target
    ensures target[..] == Overwrite(old(target[..]), at, s)
  {
    forall j | 0 <= j < |s| {
      target[at + j] := s[j];
    }
  }
}

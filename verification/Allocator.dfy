/** The pool of I/O buffers: one bit of a machine word for each of 64 equal parts of one array. */
module Allocator {
  import opened Bytes
  import opened Octets
  import opened AlignedStream

  const POOL_SIZE: nat := 64
  const BUFFER_BLOCK_LEN: nat := 4096
  const BUFFER_BLOCKS: nat := 8
  const ARRAY_BLOCKS: nat := POOL_SIZE * BUFFER_BLOCKS
  const ARRAY_LEN: nat := POOL_SIZE * BUFFER_LEN

  // ---- machine words as numbers ----

  predicate Bit(a: nat, i: nat) {
    if i == 0 then a % 2 == 1 else Bit(a / 2, i - 1)
  }

  function And(a: nat, b: nat): nat {
    if a == 0 then 0 else And(a / 2, b / 2) * 2 + Min(a % 2, b % 2)
  }

  function Or(a: nat, b: nat): nat
    decreases a + b
  {
    if a == 0 then b else Or(a / 2, b / 2) * 2 + Max(a % 2, b % 2)
  }

  function TrailingZeros(a: nat): nat
    requires a > 0
  {
    if a % 2 == 1 then 0 else 1 + TrailingZeros(a / 2)
  }

  lemma {:induction false} AndBits(a: nat, b: nat, i: nat)
    ensures Bit(And(a, b), i) <==> Bit(a, i) && Bit(b, i)
  {
    if a == 0 {
      NoBits(i);
    } else {
      var low := Min(a % 2, b % 2);
      assert And(a, b) / 2 == And(a / 2, b / 2) && And(a, b) % 2 == low;
      if i > 0 { AndBits(a / 2, b / 2, i - 1); }
    }
  }

  lemma {:induction false} OrBits(a: nat, b: nat, i: nat)
    ensures Bit(Or(a, b), i) <==> Bit(a, i) || Bit(b, i)
  {
    if a == 0 {
      NoBits(i);
    } else {
      assert Or(a, b) / 2 == Or(a / 2, b / 2) && Or(a, b) % 2 == Max(a % 2, b % 2);
      if i > 0 { OrBits(a / 2, b / 2, i - 1); }
    }
  }

  lemma {:induction false} NoBits(i: nat)
    ensures !Bit(0, i)
  {
    if i == 0 {
    } else {
      NoBits(i - 1);
    }
  }

  lemma {:induction false} PowerBits(k: nat, i: nat)
    ensures Bit(Power(2, k), i) <==> i == k
  {
    if k == 0 {
      assert Power(2, 0) == 1;
      if i > 0 { NoBits(i - 1); }
    } else {
      assert Power(2, k) / 2 == Power(2, k - 1) && Power(2, k) % 2 == 0;
      if i > 0 { PowerBits(k - 1, i - 1); }
    }
  }

  lemma {:induction false} PowerZeros(k: nat)
    ensures TrailingZeros(Power(2, k)) == k
  {
    if k == 0 {
    } else {
      assert Power(2, k) / 2 == Power(2, k - 1) && Power(2, k) % 2 == 0;
      PowerZeros(k - 1);
    }
  }

  /** `TrailingZeros` is the lowest bit set. */
  lemma {:induction false} LowestBit(a: nat, i: nat)
    requires a > 0
    ensures i == TrailingZeros(a) ==> Bit(a, i)
    ensures i < TrailingZeros(a) ==> !Bit(a, i)
  {
    if i > 0 && a % 2 == 0 { LowestBit(a / 2, i - 1); }
  }

  /** `a & (a - 1)` takes exactly the lowest set bit away. */
  lemma {:induction false} ClearLowest(a: nat)
    requires a > 0
    ensures And(a, a - 1) == a - Power(2, TrailingZeros(a))
  {
    if a % 2 == 1 {
      assert (a - 1) / 2 == a / 2 && (a - 1) % 2 == 0;
      AndSelf(a / 2);
    } else {
      assert (a - 1) / 2 == a / 2 - 1;
      ClearLowest(a / 2);
      assert Power(2, TrailingZeros(a)) == 2 * Power(2, TrailingZeros(a / 2));
    }
  }

  lemma {:induction false} AndSelf(a: nat)
    ensures And(a, a) == a
  {
    if a == 0 {
    } else {
      AndSelf(a / 2);
    }
  }

  /** The bits of `a & (a - 1)`: those of `a` but the lowest. */
  lemma ClearedBits(a: nat, i: nat)
    requires a > 0
    ensures Bit(And(a, a - 1), i) <==> Bit(a, i) && i != TrailingZeros(a)
  {
    AndBits(a, a - 1, i);
    BelowBits(a, i);
    LowestBit(a, i);
  }

  /** Subtracting 1 flips the lowest set bit and those under it. */
  lemma {:induction false} BelowBits(a: nat, i: nat)
    requires a > 0
    ensures Bit(a - 1, i) <==> if i <= TrailingZeros(a) then i < TrailingZeros(a) else Bit(a, i)
  {
    if a % 2 == 1 {
      assert (a - 1) / 2 == a / 2 && (a - 1) % 2 == 0;
    } else {
      assert (a - 1) / 2 == a / 2 - 1 && (a - 1) % 2 == 1;
      if i > 0 { BelowBits(a / 2, i - 1); }
    }
  }

  lemma {:induction false} AllOnes(n: nat, i: nat)
    ensures Bit(Power(2, n) - 1, i) <==> i < n
  {
    if n == 0 {
      assert Power(2, 0) == 1;
      NoBits(i);
    } else {
      assert (Power(2, n) - 1) / 2 == Power(2, n - 1) - 1 && (Power(2, n) - 1) % 2 == 1;
      if i > 0 { AllOnes(n - 1, i - 1); }
    }
  }

  lemma {:induction false} SomeBit(a: nat)
    requires a > 0
    ensures Bit(a, TrailingZeros(a))
  {
    LowestBit(a, TrailingZeros(a));
  }

  // ---- the pool ----

  /** No address belongs to two buffers of 32768 octets, and all lie in the pool's array of 64 of them. */
  lemma BuffersDisjoint(base: nat, i: nat, j: nat, address: nat)
    requires i < POOL_SIZE && j < POOL_SIZE && base + i * BUFFER_LEN <= address < base + (i + 1) * BUFFER_LEN
    ensures POOL_SIZE == 64 && BUFFER_LEN == BUFFER_BLOCKS * BUFFER_BLOCK_LEN == 0x8000 && BUFFER_BLOCK_LEN == 0x1000
    ensures base + j * BUFFER_LEN <= address < base + (j + 1) * BUFFER_LEN ==> i == j
    ensures base <= address < base + ARRAY_LEN == base + 0x20_0000
  {
  }

  /** A buffer's address meets what `free` asserts, and gives back the buffer's index. The upper bound that
      it asserts is counted in whole buffers, and so eight times as far as the array reaches. */
  lemma BufferStart(base: nat, i: nat, ptr: nat)
    requires i < POOL_SIZE && ptr == base + i * BUFFER_LEN && base % BUFFER_BLOCK_LEN == 0
    ensures base <= ptr < base + ARRAY_LEN && ptr < base + ARRAY_BLOCKS * BUFFER_LEN
    ensures (ptr - base) / BUFFER_LEN == i && ptr % 64 == 0 && ptr % 512 == 0
  {
    var q := base / BUFFER_BLOCK_LEN;
    assert ptr == 512 * (8 * q + 64 * i) && ptr == 64 * (64 * q + 512 * i);
    RemainderIs(ptr, 512, 8 * q + 64 * i, 0);
    RemainderIs(ptr, 64, 64 * q + 512 * i, 0);
    RemainderIs(ptr - base, BUFFER_LEN, i, 0);
  }

  class AlignedBufferAllocator {
    var available: nat
    const base: nat
    /** The buffers given out and not yet given back. */
    ghost var live: set<nat>

    /** The set bits of the mask are exactly the buffers that are not live. */
    ghost predicate Valid()
      reads this
    {
      && base % BUFFER_BLOCK_LEN == 0
      && (forall i :: i in live ==> i < POOL_SIZE)
      && (forall i: nat :: Bit(available, i) <==> i < POOL_SIZE && i !in live)
    }

    constructor (base: nat)
      requires base % BUFFER_BLOCK_LEN == 0
      ensures Valid() && live == {} && this.base == base
    {
      available := Power(2, POOL_SIZE) - 1;
      this.base := base;
      live := {};
      new;
      forall i: nat ensures Bit(available, i) <==> i < POOL_SIZE {
        AllOnes(POOL_SIZE, i);
      }
    }

    /** `alloc`: the least free buffer, or nothing exactly when all 64 are live. */
    method Alloc() returns (ptr: Option<nat>)
      requires Valid()
      modifies this
      ensures Valid()
      ensures ptr.None? <==> (forall i: nat :: i < POOL_SIZE ==> i in old(live))
      ensures ptr.None? ==> live == old(live)
      ensures ptr.Some? ==> exists i: nat ::
                && i < POOL_SIZE && i !in old(live) && (forall j: nat :: j < i ==> j in old(live))
                && ptr.value == base + i * BUFFER_LEN && live == old(live) + {i}
    {
      hide Bit, And, Power, TrailingZeros;
      if available == 0 {
        forall i: nat | i < POOL_SIZE ensures i in live { NoBits(i); }
        return None;
      }
      var before := available;
      var mask := before - 1;
      available := And(before, mask);
      ghost var lowest := TrailingZeros(before);
      ClearLowest(before);
      PowerZeros(lowest);
      var index := TrailingZeros(before - available);
      assert index == lowest;
      SomeBit(before);
      forall i: nat ensures Bit(available, i) <==> Bit(before, i) && i != lowest { ClearedBits(before, i); }
      forall j: nat | j < lowest ensures j in live { LowestBit(before, j); }
      live := live + {lowest};
      ptr := Some(base + index * BUFFER_LEN);
    }

    /** `free` of any buffer of the pool: its assertions hold, and the buffer is free afterwards, whether or
        not it was live. */
    method Free(ptr: nat, ghost i: nat)
      requires Valid() && i < POOL_SIZE && ptr == base + i * BUFFER_LEN
      modifies this
      ensures Valid() && live == old(live) - {i}
    {
      hide Bit, Or, Power;
      BufferStart(base, i, ptr);
      assert ptr % 64 == 0 && ptr % 512 == 0;
      assert base <= ptr < base + ARRAY_BLOCKS * BUFFER_LEN;
      var index := (ptr - base) / BUFFER_LEN;
      ghost var before := available;
      available := Or(available, Power(2, index));
      forall j: nat ensures Bit(available, j) <==> Bit(before, j) || j == index {
        OrBits(before, Power(2, index), j);
        PowerBits(index, j);
      }
      live := live - {i};
    }
  }
}

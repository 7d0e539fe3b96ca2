/** The three-slot ring of ciphertext buffers: enough to see each buffer with its neighbours. */
module CiphertextRing {
  import opened Bytes
  import opened BlockCipher

  /** A read buffer: octets that can be rewritten in place and cut short, and where they come from. */
  class AlignedBuffer {
    const data: array<byte>
    var len: nat
    const offset: int

    predicate Valid()
      reads this
    {
      len <= data.Length
    }

    function Bytes(): seq<byte>
      requires Valid()
      reads this, data
    {
      data[..len]
    }

    constructor (bytes: seq<byte>, offset: int)
      ensures Valid() && Bytes() == bytes && this.offset == offset && fresh(data)
    {
      data := new byte[|bytes|](i requires 0 <= i < |bytes| => bytes[i]);
      len := |bytes|;
      this.offset := offset;
    }

    method Truncate(newLen: nat)
      requires Valid()
      modifies this
      ensures Valid() && Bytes() == TruncateTo(old(Bytes()), newLen)
    {
      if len <= newLen {
        return;
      }
      len := newLen;
    }
  }

  function TruncateTo(s: seq<byte>, newLen: nat): seq<byte> {
    if |s| <= newLen then s else s[..newLen]
  }

  datatype Pos = Pos0 | Pos1 | Pos2 {
    function Index(): nat { if Pos0? then 0 else if Pos1? then 1 else 2 }

    function Next(): Pos { if Pos0? then Pos1 else if Pos1? then Pos2 else Pos0 }

    function Prev(): Pos { if Pos0? then Pos2 else if Pos1? then Pos0 else Pos1 }
  }

  /** Entry `i` of everything pushed; nothing before the first push. */
  function At(pushed: seq<AlignedBuffer?>, i: int): AlignedBuffer? {
    if 0 <= i < |pushed| then pushed[i] else null
  }

  /** The buffer to process: the last but one, so that its successor is known. */
  function Current(pushed: seq<AlignedBuffer?>): AlignedBuffer? {
    var n := |pushed|;
    if At(pushed, n - 2) != null then At(pushed, n - 2) else At(pushed, n - 1)
  }

  function Before(pushed: seq<AlignedBuffer?>): AlignedBuffer? {
    var n := |pushed|;
    if At(pushed, n - 2) != null then At(pushed, n - 3) else null
  }

  function After(pushed: seq<AlignedBuffer?>): AlignedBuffer? {
    var n := |pushed|;
    if At(pushed, n - 2) != null then At(pushed, n - 1) else null
  }

  class CiphertextBuffer {
    const inner: array<AlignedBuffer?>
    var pos: Pos
    var isPushed: bool
    /** Everything pushed so far; `finish` pushes a null. */
    ghost var pushed: seq<AlignedBuffer?>

    /** The slots hold the last three pushes. */
    ghost predicate Valid()
      reads this, inner
    {
      && inner.Length == 3
      && inner[pos.Index()] == At(pushed, |pushed| - 1)
      && inner[pos.Prev().Index()] == At(pushed, |pushed| - 2)
      && inner[pos.Prev().Prev().Index()] == At(pushed, |pushed| - 3)
      && (isPushed <==> pushed != [])
    }

    constructor ()
      ensures Valid() && pushed == [] && fresh(inner)
    {
      inner := new AlignedBuffer?[3](_ => null);
      pos := Pos1;
      isPushed := false;
      pushed := [];
    }

    method Push(buf: AlignedBuffer)
      requires Valid()
      modifies this, inner
      ensures Valid() && pushed == old(pushed) + [buf]
    {
      DoPush(buf);
    }

    method Finish()
      requires Valid()
      modifies this, inner
      ensures Valid() && pushed == old(pushed) + [null]
    {
      DoPush(null);
    }

    method DoPush(buf: AlignedBuffer?)
      requires Valid()
      modifies this, inner
      ensures Valid() && pushed == old(pushed) + [buf]
    {
      pos := pos.Next();
      inner[pos.Index()] := buf;
      isPushed := true;
      pushed := pushed + [buf];
    }

    method IsEmpty() returns (empty: bool)
      requires Valid()
      ensures empty <==> pushed == []
    {
      empty := !isPushed;
    }

    method HasPredecessor() returns (has: bool)
      requires Valid()
      ensures has <==> At(pushed, |pushed| - 2) != null
    {
      has := inner[pos.Prev().Index()] != null;
    }

    /** The current buffer; null where the source panics. */
    method Curr() returns (buf: AlignedBuffer?)
      requires Valid()
      ensures buf == Current(pushed)
    {
      var has := HasPredecessor();
      buf := if has then inner[pos.Prev().Index()] else inner[pos.Index()];
    }

    method Prev() returns (buf: AlignedBuffer?)
      requires Valid()
      ensures buf == Before(pushed)
    {
      var has := HasPredecessor();
      buf := if has then inner[pos.Prev().Prev().Index()] else null;
    }

    method Next() returns (buf: AlignedBuffer?)
      requires Valid()
      ensures buf == After(pushed)
    {
      var has := HasPredecessor();
      buf := if has then inner[pos.Index()] else null;
    }
  }

  /** The last 16 octets, right-aligned in zeros. */
  function HeadOf(prev: seq<byte>): (head: Block)
    ensures forall j :: Max(0, BLOCK_SIZE - |prev|) <= j < BLOCK_SIZE ==> head[j] == prev[|prev| - BLOCK_SIZE + j]
  {
    var left, right := Max(0, BLOCK_SIZE - |prev|), Max(0, |prev| - BLOCK_SIZE);
    Zeros(left) + prev[right..]
  }

  /** The first 16 octets, left-aligned in zeros. */
  function TailOf(next: seq<byte>): (tail: Block)
    ensures forall j :: 0 <= j < Min(BLOCK_SIZE, |next|) ==> tail[j] == next[j]
  {
    var len := Min(|next|, BLOCK_SIZE);
    next[..len] + Zeros(BLOCK_SIZE - len)
  }

  function BytesOf(buf: AlignedBuffer?): seq<byte>
    requires buf != null ==> buf.Valid()
    reads buf, if buf == null then {} else {buf.data}
  {
    if buf == null then [] else buf.Bytes()
  }

  /** `Ciphertext::from_buffer`: context on either side of the current buffer. */
  method ContextOf(ring: CiphertextBuffer) returns (head: Block, tail: Block)
    requires ring.Valid()
    requires Before(ring.pushed) != null ==> Before(ring.pushed).Valid()
    requires After(ring.pushed) != null ==> After(ring.pushed).Valid()
    ensures head == HeadOf(BytesOf(Before(ring.pushed)))
    ensures tail == TailOf(BytesOf(After(ring.pushed)))
  {
    var prev := ring.Prev();
    var next := ring.Next();
    head := HeadOf(BytesOf(prev));
    tail := TailOf(BytesOf(next));
  }

  /** After the pushes `bufs`, two or more: the last buffer is the successor, the one before it current.
      After `finish`, the last one is current and has no successor. */
  lemma RingShowsNeighbours(bufs: seq<AlignedBuffer>)
    requires |bufs| >= 2
    ensures var p: seq<AlignedBuffer?> := bufs;
            var n := |bufs|;
            && Current(p) == bufs[n - 2] && After(p) == bufs[n - 1]
            && Before(p) == (if n >= 3 then bufs[n - 3] else null)
            && Current(p + [null]) == bufs[n - 1] && Before(p + [null]) == bufs[n - 2] && After(p + [null]) == null
  {
    var p: seq<AlignedBuffer?> := bufs;
    assert forall i :: 0 <= i < |bufs| ==> At(p, i) == bufs[i] && At(p + [null], i) == bufs[i];
  }
}

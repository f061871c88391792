/** The circular byte queue of `ringBuffer.h` and `ringBuffer.cpp`. */
module RingBuffers {
  import opened Bits
  import opened Memory
  import opened Ring

  const INT_MAX: int := 0x7FFF_FFFF
  const LARGEST_RING: int := 0x4000_0000

  class RingBuffer {
    var bufferSize: nat
    var maxSize: nat
    var buffer: array<byte>
    var headPtr: nat     // offset from `buffer`
    var tailPtr: nat     // offset from `buffer`
    ghost var order: nat // bufferSize is 2^order

    ghost predicate Valid()
      reads this
    {
      && order <= 30 && bufferSize == Pow2(order) <= LARGEST_RING
      && maxSize == bufferSize - 1 && buffer.Length == bufferSize
      && headPtr < bufferSize && tailPtr < bufferSize
    }

    /** The queue the ring stands for. */
    ghost function Queue(): (q: seq<byte>)
      reads this, buffer
      requires Valid()
    {
      Contents(buffer[..], headPtr, tailPtr)
    }

    constructor (size: nat)
      requires 1 <= size <= LARGEST_RING
      ensures Valid() && fresh(buffer) && Queue() == []
      ensures headPtr == tailPtr == 0
      ensures size <= bufferSize < 2 * size
      ensures forall k: nat :: size <= Pow2(k) ==> bufferSize <= Pow2(k)
    {
      var n := Pow2(CeilLog2(size));
      bufferSize, maxSize := n, n - 1;
      buffer := new byte[n];
      headPtr, tailPtr := 0, 0;
      order := CeilLog2(size);
      CeilLog2IsLeast(size);
      CeilLog2IsLeast(LARGEST_RING);
      LargestOrder();
      forall k: nat | size <= Pow2(k) ensures n <= Pow2(k) {
        Pow2Monotone(CeilLog2(size), k);
      }
      Pow2Monotone(CeilLog2(size), 30);
    }

    constructor Copy(b: RingBuffer)
      requires b.Valid()
      ensures Valid() && fresh(buffer) && Queue() == b.Queue()
      ensures bufferSize == b.bufferSize && headPtr == b.headPtr && tailPtr == b.tailPtr
    {
      bufferSize := b.bufferSize;
      maxSize := b.bufferSize - 1;
      buffer := new byte[b.bufferSize];
      headPtr := b.headPtr;
      tailPtr := b.tailPtr;
      order := b.order;
      new;
      CopyUnread(b);
    }

    /** `operator =` from another ring. */
    method Assign(b: RingBuffer)
      requires Valid() && b.Valid() && b != this
      modifies this
      ensures Valid() && fresh(buffer) && Queue() == b.Queue()
      ensures bufferSize == b.bufferSize && headPtr == b.headPtr && tailPtr == b.tailPtr
    {
      bufferSize := b.bufferSize;
      maxSize := b.maxSize;
      buffer := new byte[b.bufferSize];
      headPtr := b.headPtr;
      tailPtr := b.tailPtr;
      order := b.order;
      CopyUnread(b);
    }

    /** The copy both of the above make: one chunk when `headPtr <= tailPtr`, otherwise two. */
    method CopyUnread(b: RingBuffer)
      requires Valid() && b.Valid() && buffer != b.buffer && order == b.order
      requires headPtr == b.headPtr && tailPtr == b.tailPtr
      modifies buffer
      ensures Queue() == b.Queue()
    {
      hide BitAnd, Contents, Splice;
      CopiedContents(order, b.buffer[..], buffer[..], headPtr, tailPtr);
      MaskedGeometry(order, headPtr, tailPtr);
      if headPtr <= tailPtr {
        CopyOnce(b.buffer, Head(), b.Size());
      } else {
        CopyTwice(b.buffer, Head(), b.DirectDequeueSize(), b.Size());
      }
    }

    method CopyOnce(from: array<byte>, start: nat, all: nat)
      requires from != buffer && from.Length == buffer.Length && start + all <= buffer.Length
      modifies buffer
      ensures buffer[..] == Splice(old(buffer[..]), start, from[..][start..start + all])
    {
      MemMove(buffer, start, from, start, all);
    }

    method CopyTwice(from: array<byte>, start: nat, first: nat, all: nat)
      requires from != buffer && from.Length == buffer.Length
      requires start + first <= buffer.Length && first <= all <= buffer.Length
      modifies buffer
      ensures buffer[..] ==
                Splice(Splice(old(buffer[..]), start, from[..][start..start + first]), 0, from[..][0..all - first])
    {
      MemMove(buffer, start, from, start, first);
      MemMove(buffer, 0, from, 0, all - first);
    }

    // ---- queries ---------------------------------------------------------------------------

    function Size(): (s: nat)
      reads this, buffer
      requires Valid()
      ensures s == |Queue()|
    {
      MaskedGeometry(order, headPtr, tailPtr);
      SizeOf(bufferSize, headPtr, tailPtr)
    }

    function FreeSize(): (f: nat)
      reads this, buffer
      requires Valid()
      ensures |Queue()| + f == bufferSize - 1
    {
      MaskedGeometry(order, headPtr, tailPtr);
      FreeOfUnparenthesised(bufferSize, headPtr, tailPtr)
    }

    /** The slot of the oldest byte. */
    function Head(): (slot: nat)
      reads this
      requires Valid()
      ensures slot < bufferSize && (bufferSize > 1 ==> slot == Advance(bufferSize, headPtr, 1))
    {
      NextSlotIsAdvance(order, headPtr);
      NextSlot(bufferSize, headPtr)
    }

    /** The slot the next byte goes to. */
    function Tail(): (slot: nat)
      reads this
      requires Valid()
      ensures slot < bufferSize && (bufferSize > 1 ==> slot == Advance(bufferSize, tailPtr, 1))
    {
      NextSlotIsAdvance(order, tailPtr);
      NextSlot(bufferSize, tailPtr)
    }

    /** Bytes that fit from `Tail()` on without wrapping; what is left of the free space starts at
        slot 0. */
    function DirectEnqueueSize(): (d: nat)
      reads this
      requires Valid()
      ensures d == Min(bufferSize - 1 - Distance(bufferSize, headPtr, tailPtr), bufferSize - Tail())
    {
      NextSlotIsAdvance(order, tailPtr);
      EnqueueChunk(bufferSize, headPtr, tailPtr)
    }

    /** Unread bytes from `Head()` on without wrapping; the others start at slot 0. */
    function DirectDequeueSize(): (d: nat)
      reads this, buffer
      requires Valid()
      ensures Head() + d <= bufferSize && d <= |Queue()|
      ensures buffer[Head()..Head() + d] + buffer[..|Queue()| - d] == Queue()
    {
      NextSlotIsAdvance(order, headPtr);
      NextSlotIsAdvance(order, tailPtr);
      PoppedContents(order, buffer[..], headPtr, tailPtr, |Queue()|);
      DequeueChunk(bufferSize, headPtr, tailPtr)
    }

    // ---- pointer moves ---------------------------------------------------------------------

    /** Clamps only from above, so a count below minus the size runs past the head and the
        queue length wraps. */
    method MoveRear(count: int) returns (moved: int)
      requires Valid()
      modifies `tailPtr
      ensures Valid()
      ensures moved == Min(count, bufferSize - 1 - |old(Queue())|)
      ensures tailPtr == Moved(bufferSize, old(tailPtr), moved)
      ensures |Queue()| == (|old(Queue())| + moved) % bufferSize
      ensures moved >= 0 ==> Queue() == old(Queue()) + SlotsAfter(buffer[..], old(tailPtr), moved)
      ensures -|old(Queue())| <= moved <= 0 ==> Queue() == old(Queue())[..|old(Queue())| + moved]
    {
      MaskedGeometry(order, headPtr, tailPtr);
      moved := count;
      var tempF := Min(FreeOf(bufferSize, headPtr, tailPtr), INT_MAX);
      if moved > tempF {
        moved := tempF;
      }
      MovedTailContents(order, buffer[..], headPtr, tailPtr, moved);
      tailPtr := Moved(bufferSize, tailPtr, moved);
    }

    /** Clamps only from above; a negative count takes bytes back that were already read. */
    method MoveFront(count: int) returns (moved: int)
      requires Valid()
      modifies `headPtr
      ensures Valid()
      ensures moved == Min(count, |old(Queue())|)
      ensures headPtr == Moved(bufferSize, old(headPtr), moved)
      ensures moved >= 0 ==> Queue() == old(Queue())[moved..]
      ensures 0 <= -moved < bufferSize - |old(Queue())| ==>
                Queue() == SlotsAfter(buffer[..], headPtr, -moved) + old(Queue())
    {
      MaskedGeometry(order, headPtr, tailPtr);
      moved := count;
      var tempS := Min(SizeOf(bufferSize, headPtr, tailPtr), INT_MAX);
      if moved > tempS {
        moved := tempS;
      }
      ghost var h := headPtr;
      headPtr := Moved(bufferSize, headPtr, moved);
      if moved >= 0 {
        MovedIsAdvance(order, h, moved);
        DroppedContents(buffer[..], h, tailPtr, moved);
      } else if -moved < bufferSize - Distance(bufferSize, h, tailPtr) {
        MoveBackRestores(order, h, moved);
        MovedIsMod(order, h, moved);
        MovedIsAdvance(order, headPtr, -moved);
        RewoundContents(buffer[..], h, tailPtr, headPtr, -moved);
      }
    }

    // ---- queue operations ------------------------------------------------------------------

    method Push(data: seq<byte>) returns (accepted: nat)
      requires Valid()
      modifies `tailPtr, buffer
      ensures Valid()
      ensures accepted == Min(|data|, bufferSize - 1 - |old(Queue())|)
      ensures Queue() == old(Queue()) + data[..accepted]
      ensures tailPtr == Moved(bufferSize, old(tailPtr), accepted)
      ensures AfterStores(old(buffer[..]), buffer[..], old(Tail()), old(DirectEnqueueSize()), data[..accepted])
    {
      hide Contents;
      var h, t := headPtr, tailPtr;
      MaskedGeometry(order, h, t);
      accepted := |data|;
      var tempF := FreeOf(bufferSize, h, t);
      if accepted > tempF {
        accepted := tempF;
      }
      var tempT := NextSlot(bufferSize, t);
      var d := EnqueueChunk(bufferSize, h, t);
      PushedContents(order, buffer[..], h, t, data[..accepted]);
      StoreWrapped(tempT, d, data[..accepted]);
      tailPtr := Moved(bufferSize, t, accepted);
    }

    method Pop(out: array<byte>, count: nat) returns (removed: nat)
      requires Valid() && out != buffer
      requires Min(count, |Queue()|) <= out.Length
      modifies `headPtr, out
      ensures Valid()
      ensures removed == Min(count, |old(Queue())|)
      ensures out[..] == Splice(old(out[..]), 0, old(Queue())[..removed])
      ensures Queue() == old(Queue())[removed..]
      ensures headPtr == Moved(bufferSize, old(headPtr), removed)
    {
      removed := Front(out, count);
      PoppedContents(order, buffer[..], headPtr, tailPtr, removed);
      headPtr := Moved(bufferSize, headPtr, removed);
    }

    /** Copies without removing. */
    method Front(out: array<byte>, count: nat) returns (copied: nat)
      requires Valid() && out != buffer
      requires Min(count, |Queue()|) <= out.Length
      modifies out
      ensures copied == Min(count, |Queue()|)
      ensures out[..] == Splice(old(out[..]), 0, Queue()[..copied])
    {
      var h, t := headPtr, tailPtr;
      MaskedGeometry(order, h, t);
      copied := count;
      var tempS := SizeOf(bufferSize, h, t);
      if copied > tempS {
        copied := tempS;
      }
      var tempH := NextSlot(bufferSize, h);
      var d := DequeueChunk(bufferSize, h, t);
      PoppedContents(order, buffer[..], h, t, copied);
      LoadWrapped(out, tempH, d, copied);
    }

    /** Writing straight to `Tail()`, as far as that goes without wrapping, and then moving the rear. */
    method EnqueueRound(data: seq<byte>) returns (stored: nat)
      requires Valid()
      modifies `tailPtr, buffer
      ensures Valid() && stored == Min(|data|, old(DirectEnqueueSize()))
      ensures Queue() == old(Queue()) + data[..stored]
      ensures tailPtr == Moved(bufferSize, old(tailPtr), stored)
      ensures buffer[..] == Splice(old(buffer[..]), old(Tail()), data[..stored])
    {
      hide Contents;
      stored := Min(|data|, DirectEnqueueSize());
      PushedContents(order, buffer[..], headPtr, tailPtr, data[..stored]);
      MemStore(buffer, Tail(), data[..stored]);
      var moved := MoveRear(stored);
    }

    /** `push` through the direct interface: what does not fit behind the tail goes to the start of the
        array in a second round. The ring afterwards is the one `Push` leaves, byte for byte. */
    method PushDirectly(data: seq<byte>) returns (accepted: nat)
      requires Valid()
      modifies `tailPtr, buffer
      ensures Valid()
      ensures accepted == Min(|data|, bufferSize - 1 - |old(Queue())|)
      ensures Queue() == old(Queue()) + data[..accepted]
      ensures tailPtr == Moved(bufferSize, old(tailPtr), accepted)
      ensures AfterStores(old(buffer[..]), buffer[..], old(Tail()), old(DirectEnqueueSize()), data[..accepted])
    {
      hide Contents, Moved, StoreChunks, Splice, Distance, NextSlot, EnqueueChunk, AfterStores, BitAnd, Pow2;
      ghost var buf, queue, t, start, d := buffer[..], Queue(), tailPtr, Tail(), DirectEnqueueSize();
      accepted := EnqueueRound(data);
      RoundInFull(buf, start, d, data, accepted);
      if accepted < |data| {
        SecondRoundStarts(order, headPtr, t);
        var more := EnqueueRound(data[accepted..]);
        TwoRounds(queue, buf, start, d, data, more);
        MovedTwice(order, t, accepted, more);
        accepted := accepted + more;
      }
    }

    /** `pop` as `front` and then `moveFront` over what was copied. */
    method PopByFront(out: array<byte>, count: nat) returns (removed: nat)
      requires Valid() && out != buffer
      requires Min(count, |Queue()|) <= out.Length
      modifies `headPtr, out
      ensures Valid()
      ensures removed == Min(count, |old(Queue())|)
      ensures out[..] == Splice(old(out[..]), 0, old(Queue())[..removed])
      ensures Queue() == old(Queue())[removed..]
      ensures headPtr == Moved(bufferSize, old(headPtr), removed)
    {
      removed := Front(out, count);
      var moved := MoveFront(removed);
    }

    /** The two copies of `push`: the first chunk at `start`, the rest from slot 0. */
    method StoreWrapped(start: nat, d: nat, data: seq<byte>)
      requires start + Min(d, |data|) <= buffer.Length && |data| - d <= buffer.Length
      modifies buffer
      ensures buffer[..] == StoreChunks(old(buffer[..]), start, d, data)
    {
      if d >= |data| {
        MemStore(buffer, start, data);
      } else {
        MemStore(buffer, start, data[..d]);
        MemStore(buffer, 0, data[d..]);
      }
    }

    /** The two copies of `pop` and `front`. */
    method LoadWrapped(out: array<byte>, start: nat, d: nat, len: nat)
      requires out != buffer && len <= out.Length
      requires start + Min(d, len) <= buffer.Length && len - d <= buffer.Length
      modifies out
      ensures out[..] == Splice(old(out[..]), 0, LoadChunks(buffer[..], start, d, len))
    {
      if d >= len {
        MemMove(out, 0, buffer, start, len);
        assert buffer[start..start + len] == LoadChunks(buffer[..], start, d, len);
      } else {
        MemMove(out, 0, buffer, start, d);
        MemMove(out, d, buffer, 0, len - d);
        assert buffer[start..start + d] + buffer[0..len - d] == LoadChunks(buffer[..], start, d, len);
      }
    }
  }

  /** The array after a push: the data from `start` on, as far as `d` bytes, and the rest in front. */
  ghost predicate AfterStores(buf: seq<byte>, buf': seq<byte>, start: nat, d: nat, data: seq<byte>) {
    && start + Min(d, |data|) <= |buf| && |data| - d <= |buf|
    && buf' == StoreChunks(buf, start, d, data)
  }

  lemma RoundInFull(buf: seq<byte>, start: nat, d: nat, data: seq<byte>, stored: nat)
    requires stored == Min(|data|, d) && start + stored <= |buf|
    ensures AfterStores(buf, Splice(buf, start, data[..stored]), start, d, data[..stored])
  {
    hide Splice;
  }

  /** What a first round could not take has its place at the start of the array. */
  lemma SecondRoundStarts(k: nat, h: nat, t: nat)
    requires h < Pow2(k) && t < Pow2(k)
    ensures var n := Pow2(k);
            var free, d := n - 1 - Distance(n, h, t), Min(n - 1 - Distance(n, h, t), n - NextSlot(n, t));
            var t' := Moved(n, t, d);
            && d >= 0 && Distance(n, h, t') == n - 1 - free + d
            && Min(n - 1 - Distance(n, h, t'), n - NextSlot(n, t')) == free - d
            && (d < free ==> NextSlot(n, t') == 0)
  {
    var n := Pow2(k);
    var d := Min(n - 1 - Distance(n, h, t), n - NextSlot(n, t));
    NextSlotIsAdvance(k, t);
    NextSlotIsAdvance(k, Moved(n, t, d));
    MovedIsAdvance(k, t, d);
    hide Pow2, BitAnd, NextSlot, Moved;
  }

  lemma TwoRounds(queue: seq<byte>, buf: seq<byte>, start: nat, d: nat, data: seq<byte>, more: nat)
    requires d + more <= |data| && start + d <= |buf| && more <= |buf|
    ensures queue + data[..d] + data[d..][..more] == queue + data[..d + more]
    ensures more > 0 ==>
              AfterStores(buf, Splice(Splice(buf, start, data[..d]), 0, data[d..][..more]), start, d, data[..d + more])
    ensures forall at | 0 <= at <= |buf| :: more == 0 ==>
              AfterStores(buf, Splice(Splice(buf, start, data[..d]), at, data[d..][..more]), start, d, data[..d + more])
  {
    assert data[..d + more][..d] == data[..d] && data[..d + more][d..] == data[d..][..more];
    var none: seq<byte> := [];
    assert more == 0 ==> data[d..][..more] == none;
    forall at, s: seq<byte> | 0 <= at <= |s| ensures Splice(s, at, none) == s {
    }
  }

  lemma MovedTwice(k: nat, p: nat, a: nat, b: nat)
    requires p < Pow2(k) && a < Pow2(k) && a + b < Pow2(k)
    ensures Moved(Pow2(k), Moved(Pow2(k), p, a), b) == Moved(Pow2(k), p, a + b)
  {
    MovedIsAdvance(k, p, a);
    MovedIsAdvance(k, p, a + b);
    MovedIsAdvance(k, Moved(Pow2(k), p, a), b);
  }

  lemma LargestOrder()
    ensures Pow2(30) == LARGEST_RING
  {
    assert Pow2(10) == 1024;
    assert Pow2(20) == 0x10_0000;
  }

  lemma {:induction false} Pow2Monotone(j: nat, k: nat)
    requires j <= k
    ensures Pow2(j) <= Pow2(k)
    decreases k
  {
    if j < k {
      Pow2Monotone(j, k - 1);
    }
  }
}

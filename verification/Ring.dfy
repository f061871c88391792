/** Values and geometry of the ring: what the masked pointer expressions of `ringBuffer.h` compute,
    and where the two-chunk copies of `ringBuffer.cpp` put and find each byte.
    Pointers are offsets from `buffer`. `n` is `bufferSize`, so `_maxSize` is `n - 1`. */
module Ring {
  import opened Bits
  import opened Memory

  // ---- reference definitions -------------------------------------------------------------

  /** The slot `m` places after `p`, going round. */
  function Advance(n: nat, p: nat, m: nat): (q: nat)
    requires p < n && m < n
    ensures q < n
  {
    if p + m < n then p + m else p + m - n
  }

  /** How far `t` is ahead of `h`, going round. */
  function Distance(n: nat, h: nat, t: nat): (d: nat)
    requires h < n && t < n
    ensures d < n && Advance(n, h, d) == t
  {
    if h <= t then t - h else t - h + n
  }

  /** What memory holds in the `count` slots after `p`. */
  function SlotsAfter(buf: seq<byte>, p: nat, count: nat): (s: seq<byte>)
    requires p < |buf| && count < |buf|
    ensures |s| == count
  {
    seq(count, i requires 0 <= i < count => buf[Advance(|buf|, p, i + 1)])
  }

  /** The unread bytes, oldest first. The slot at `h` itself never holds one. */
  function Contents(buf: seq<byte>, h: nat, t: nat): (q: seq<byte>)
    requires h < |buf| && t < |buf|
    ensures |q| == Distance(|buf|, h, t)
  {
    SlotsAfter(buf, h, Distance(|buf|, h, t))
  }

  // ---- the expressions of the source -----------------------------------------------------

  function SizeOf(n: nat, h: nat, t: nat): nat
    requires n > 0
  {
    BitAnd(t - h + n, n - 1)
  }

  function FreeOf(n: nat, h: nat, t: nat): nat
    requires n > 0
  {
    n - 1 - BitAnd(t - h + n, n - 1)
  }

  /** The public `freeSize()`: `-` binds tighter than `&`, so the mask covers the difference. */
  function FreeOfUnparenthesised(n: nat, h: nat, t: nat): nat
    requires n > 0
  {
    BitAnd(n - 1 - (t - h + n), n - 1)
  }

  /** `head(h, t)` and `tail(h, t)`: the slot after the pointer. */
  function NextSlot(n: nat, p: nat): nat
    requires n > 0
  {
    BitAnd(p + 1, n - 1)
  }

  /** The pointer published after moving by `m`, which may be negative. */
  function Moved(n: nat, p: nat, m: int): (q: nat)
    requires n > 0
    ensures q < n
  {
    BitAnd(p + m, n - 1)
  }

  /** Length of the first chunk of a `push`. */
  function EnqueueChunk(n: nat, h: nat, t: nat): int
    requires n > 0
  {
    var tempT := NextSlot(n, t);
    if tempT <= h then h - tempT else n - tempT
  }

  /** Length of the first chunk of a `pop` or a `front`. */
  function DequeueChunk(n: nat, h: nat, t: nat): int
    requires n > 0
  {
    var tempT, tempH := NextSlot(n, t), NextSlot(n, h);
    if tempH <= tempT then tempT - tempH else n - tempH
  }

  /** Offset of byte `i` of a copy of `len` bytes whose first chunk has `d` bytes. */
  function ChunkSlot(start: nat, d: int, len: nat, i: nat): int {
    if d >= len || i < d then start + i else i - d
  }

  // ---- the expressions compute the reference definitions ---------------------------------

  lemma WrapOnce(x: int, n: nat)
    requires n > 0 && 0 <= x < 2 * n
    ensures x % n == if x < n then x else x - n
  {
  }

  /** Every masked expression, on a power-of-two ring, is the cyclic distance or step it stands for. */
  lemma MaskedGeometry(k: nat, h: nat, t: nat)
    requires h < Pow2(k) && t < Pow2(k)
    ensures var n := Pow2(k); var s := Distance(n, h, t);
            && SizeOf(n, h, t) == s
            && FreeOf(n, h, t) == n - 1 - s == FreeOfUnparenthesised(n, h, t)
  {
    var n := Pow2(k);
    var s := Distance(n, h, t);
    MaskIsMod(t - h + n, k);
    WrapOnce(t - h + n, n);
    MaskIsMod(n - 1 - (t - h + n), k);
    DivModUnique(h - t - 1, n, if h <= t then -1 else 0, n - 1 - s);
  }

  lemma MovedIsMod(k: nat, p: nat, m: int)
    requires p < Pow2(k)
    ensures Moved(Pow2(k), p, m) == (p + m) % Pow2(k) < Pow2(k)
  {
    hide BitAnd, Pow2;
    MaskIsMod(p + m, k);
  }

  lemma MovedIsAdvance(k: nat, p: nat, m: nat)
    requires p < Pow2(k) && m < Pow2(k)
    ensures Moved(Pow2(k), p, m) == Advance(Pow2(k), p, m)
  {
    hide BitAnd, Pow2;
    MaskIsMod(p + m, k);
    WrapOnce(p + m, Pow2(k));
  }

  lemma NextSlotIsAdvance(k: nat, p: nat)
    requires p < Pow2(k)
    ensures NextSlot(Pow2(k), p) == if p + 1 < Pow2(k) then p + 1 else 0
  {
    MaskIsMod(p + 1, k);
    WrapOnce(p + 1, Pow2(k));
  }

  /** Moving a pointer by `m` and then by `-m` restores it, whatever `m` is. */
  lemma MoveBackRestores(k: nat, p: nat, m: int)
    requires p < Pow2(k)
    ensures Moved(Pow2(k), Moved(Pow2(k), p, m), -m) == p
  {
    var n := Pow2(k);
    MovedIsMod(k, p, m);
    var q := Moved(n, p, m);
    MovedIsMod(k, q, -m);
    ModBack(p, m, n, (p + m) / n);
  }

  lemma ModBack(p: nat, m: int, n: nat, a: int)
    requires p < n && a == (p + m) / n
    ensures ((p + m) % n - m) % n == p
  {
    var q := (p + m) % n;
    assert p + m == a * n + q;
    assert (-a) * n == -(a * n);
    DivModUnique(q - m, n, -a, p);
  }

  /** A `push` of at most the free size stores byte `i` in the `i`-th slot after the tail. */
  lemma EnqueueSlots(k: nat, h: nat, t: nat, len: nat, i: nat)
    requires h < Pow2(k) && t < Pow2(k)
    requires i < len < Pow2(k) - Distance(Pow2(k), h, t)
    ensures var n := Pow2(k); var d := EnqueueChunk(n, h, t);
            && 0 <= d <= n - NextSlot(n, t)
            && ChunkSlot(NextSlot(n, t), d, len, i) == Advance(n, t, i + 1)
  {
    NextSlotIsAdvance(k, t);
  }

  /** A `pop` of at most the size reads byte `i` from the `i`-th slot after the head. */
  lemma DequeueSlots(k: nat, h: nat, t: nat, len: nat, i: nat)
    requires h < Pow2(k) && t < Pow2(k)
    requires i < len <= Distance(Pow2(k), h, t)
    ensures var n := Pow2(k); var d := DequeueChunk(n, h, t);
            && 0 <= d <= n - NextSlot(n, h)
            && ChunkSlot(NextSlot(n, h), d, len, i) == Advance(n, h, i + 1)
  {
    NextSlotIsAdvance(k, h);
    NextSlotIsAdvance(k, t);
  }

  // ---- contents under pointer moves and stores -------------------------------------------

  /** Storing `data` in the slots after the tail and then moving the tail over it appends `data`. */
  lemma AppendedContents(buf: seq<byte>, buf': seq<byte>, h: nat, t: nat, data: seq<byte>)
    requires |buf| == |buf'| && h < |buf| && t < |buf|
    requires Distance(|buf|, h, t) + |data| < |buf|
    requires Contents(buf', h, t) == Contents(buf, h, t)
    requires forall i {:trigger data[i]} :: 0 <= i < |data| ==> buf'[Advance(|buf|, t, i + 1)] == data[i]
    ensures Contents(buf', h, Advance(|buf|, t, |data|)) == Contents(buf, h, t) + data
  {
  }

  /** Moving the head over `m` unread bytes drops exactly them. */
  lemma DroppedContents(buf: seq<byte>, h: nat, t: nat, m: nat)
    requires h < |buf| && t < |buf| && m <= Distance(|buf|, h, t)
    ensures Contents(buf, Advance(|buf|, h, m), t) == Contents(buf, h, t)[m..]
  {
  }

  /** Slots outside the unread bytes do not matter. */
  lemma SameContents(buf: seq<byte>, buf': seq<byte>, h: nat, t: nat)
    requires |buf| == |buf'| && h < |buf| && t < |buf|
    requires forall i {:trigger Advance(|buf|, h, i + 1)} ::
               0 <= i < Distance(|buf|, h, t) ==> buf'[Advance(|buf|, h, i + 1)] == buf[Advance(|buf|, h, i + 1)]
    ensures Contents(buf', h, t) == Contents(buf, h, t)
  {
  }

  /** Moving the tail on over `m` free slots adds whatever they hold. */
  lemma ExposedContents(buf: seq<byte>, h: nat, t: nat, m: nat)
    requires h < |buf| && t < |buf| && Distance(|buf|, h, t) + m < |buf|
    ensures Contents(buf, h, Advance(|buf|, t, m)) == Contents(buf, h, t) + SlotsAfter(buf, t, m)
  {
    AppendedContents(buf, buf, h, t, SlotsAfter(buf, t, m));
  }

  /** Moving the head back over `m` free slots puts what they hold in front. */
  lemma RewoundContents(buf: seq<byte>, h: nat, t: nat, h': nat, m: nat)
    requires h < |buf| && t < |buf| && h' < |buf| && Distance(|buf|, h, t) + m < |buf|
    requires h == Advance(|buf|, h', m)
    ensures Contents(buf, h', t) == SlotsAfter(buf, h', m) + Contents(buf, h, t)
  {
  }

  lemma DistanceMoved(n: nat, h: nat, t: nat, t': nat, moved: int)
    requires h < n && t < n && t' == (t + moved) % n
    ensures Distance(n, h, t') == (Distance(n, h, t) + moved) % n
  {
    var a := (t + moved) / n;
    assert t + moved == a * n + t';
    var w, w' := if h <= t then 0 else 1, if h <= t' then 0 else 1;
    assert (a - w' + w) * n == a * n - w' * n + w * n;
    DivModUnique(Distance(n, h, t) + moved, n, a - w' + w, Distance(n, h, t'));
  }

  /** Moving the tail by any `m` that the free size allows: backwards it forgets the newest bytes,
      and past the head the length wraps. */
  lemma MovedTailContents(k: nat, buf: seq<byte>, h: nat, t: nat, m: int)
    requires |buf| == Pow2(k) && h < |buf| && t < |buf|
    requires m < |buf| - Distance(|buf|, h, t)
    ensures var q, q' := Contents(buf, h, t), Contents(buf, h, Moved(|buf|, t, m));
            && |q'| == (|q| + m) % |buf|
            && (m >= 0 ==> q' == q + SlotsAfter(buf, t, m))
            && (-|q| <= m <= 0 ==> q' == q[..|q| + m])
  {
    MovedIsMod(k, t, m);
    DistanceMoved(|buf|, h, t, Moved(|buf|, t, m), m);
    if m >= 0 {
      MovedIsAdvance(k, t, m);
      ExposedContents(buf, h, t, m);
    }
    if 0 <= |Contents(buf, h, t)| + m {
      WrapOnce(|Contents(buf, h, t)| + m, |buf|);
    }
  }

  // ---- two-chunk copies --------------------------------------------------------------------

  function StoreChunks(buf: seq<byte>, start: nat, d: nat, data: seq<byte>): (r: seq<byte>)
    requires start + Min(d, |data|) <= |buf| && |data| - d <= |buf|
    ensures |r| == |buf|
  {
    if d >= |data| then Splice(buf, start, data)
    else Splice(Splice(buf, start, data[..d]), 0, data[d..])
  }

  function LoadChunks(buf: seq<byte>, start: nat, d: nat, len: nat): (r: seq<byte>)
    requires start + Min(d, len) <= |buf| && len - d <= |buf|
    ensures |r| == len
  {
    if d >= len then buf[start..start + len] else buf[start..start + d] + buf[..len - d]
  }

  /** The two-chunk store of `push`, then publishing the tail, appends the data to the queue. */
  lemma PushedContents(k: nat, buf: seq<byte>, h: nat, t: nat, data: seq<byte>)
    requires |buf| == Pow2(k) && h < |buf| && t < |buf|
    requires Distance(|buf|, h, t) + |data| < |buf|
    ensures var n := |buf|; var d := EnqueueChunk(n, h, t); var start := NextSlot(n, t);
            && d >= 0 && start + Min(d, |data|) <= n && |data| - d <= n
            && Contents(StoreChunks(buf, start, d, data), h, t) == Contents(buf, h, t)
            && Contents(StoreChunks(buf, start, d, data), h, Moved(n, t, |data|)) == Contents(buf, h, t) + data
  {
    var n, d, start := |buf|, EnqueueChunk(|buf|, h, t), NextSlot(|buf|, t);
    NextSlotIsAdvance(k, t);
    MovedIsAdvance(k, t, |data|);
    var buf' := StoreChunks(buf, start, d, data);
    forall i | 0 <= i < |data| ensures buf'[Advance(n, t, i + 1)] == data[i] {
      EnqueueSlots(k, h, t, |data|, i);
    }
    SameContents(buf, buf', h, t);
    AppendedContents(buf, buf', h, t, data);
  }

  /** The two-chunk load of `pop` and `front` reads the oldest bytes of the queue. */
  lemma PoppedContents(k: nat, buf: seq<byte>, h: nat, t: nat, len: nat)
    requires |buf| == Pow2(k) && h < |buf| && t < |buf|
    requires len <= Distance(|buf|, h, t)
    ensures var n := |buf|; var d := DequeueChunk(n, h, t); var start := NextSlot(n, h);
            && d >= 0 && start + Min(d, len) <= n && len - d <= n
            && LoadChunks(buf, start, d, len) == Contents(buf, h, t)[..len]
            && Contents(buf, Moved(n, h, len), t) == Contents(buf, h, t)[len..]
  {
    var n, d, start := |buf|, DequeueChunk(|buf|, h, t), NextSlot(|buf|, h);
    NextSlotIsAdvance(k, h);
    NextSlotIsAdvance(k, t);
    MovedIsAdvance(k, h, len);
    DroppedContents(buf, h, t, len);
    forall i | 0 <= i < len
      ensures LoadChunks(buf, start, d, len)[i] == Contents(buf, h, t)[..len][i]
    {
      DequeueSlots(k, h, t, len, i);
    }
  }

  /** The chunks a copied ring takes over are enough to hold the same queue at the same offsets. */
  lemma CopiedContents(k: nat, from: seq<byte>, to: seq<byte>, h: nat, t: nat)
    requires |from| == |to| == Pow2(k) && h < |from| && t < |from|
    ensures var n := |from|; var s := Distance(n, h, t); var d := DequeueChunk(n, h, t); var start := NextSlot(n, h);
            && 0 <= d <= s && start + d <= n && s - d <= n && (h <= t ==> start + s <= n)
            && (h <= t ==> Contents(Splice(to, start, from[start..start + s]), h, t) == Contents(from, h, t))
            && (h > t ==>
                  Contents(Splice(Splice(to, start, from[start..start + d]), 0, from[0..s - d]), h, t)
                  == Contents(from, h, t))
  {
    NextSlotIsAdvance(k, h);
    NextSlotIsAdvance(k, t);
    if h > t {
      CopiedInTwo(k, from, to, h, t);
    } else {
      var s, start := Distance(|from|, h, t), NextSlot(|from|, h);
      SameContents(from, Splice(to, start, from[start..start + s]), h, t);
    }
  }

  lemma CopiedInTwo(k: nat, from: seq<byte>, to: seq<byte>, h: nat, t: nat)
    requires |from| == |to| == Pow2(k) && t < h < |from|
    ensures var n := |from|; var s := Distance(n, h, t); var d := DequeueChunk(n, h, t); var start := NextSlot(n, h);
            && 0 <= d <= s && start + d <= n && s - d <= n
            && Contents(Splice(Splice(to, start, from[start..start + d]), 0, from[0..s - d]), h, t) == Contents(from, h, t)
  {
    NextSlotIsAdvance(k, h);
    NextSlotIsAdvance(k, t);
    var n, d, s, start := |from|, DequeueChunk(|from|, h, t), Distance(|from|, h, t), NextSlot(|from|, h);
    hide BitAnd, NextSlot, DequeueChunk;
    SameContents(from, Splice(Splice(to, start, from[start..start + d]), 0, from[0..s - d]), h, t);
  }
}

/** One producer running `push` and one consumer running `pop` or `front` on the same ring, without a lock.
    Every load of a pointer, every byte copied and every publication of a pointer is a step of its own;
    the bytes of one `memmove` may be copied in any order. Memory is sequentially consistent. */
module Spsc {
  import opened Bits
  import opened Ring

  /** `free`: the free space when `push` was called. */
  datatype Producer =
    | ProducerIdle
    | LoadedHead(data: seq<byte>, free: nat, h: nat)
    | Storing(data: seq<byte>, free: nat, h: nat, t: nat, len: nat, done: set<nat>)

  /** `size`: the bytes in the ring when `pop` or `front` was called. */
  datatype Consumer =
    | ConsumerIdle
    | LoadedOwnHead(count: nat, keep: bool, size: nat, h: nat)
    | Loading(count: nat, keep: bool, size: nat, h: nat, t: nat, len: nat, got: map<nat, byte>)

  /** A finished `pop` or `front` of `count` bytes that returned `bytes` after `at` bytes had been
      removed; `size` bytes were in the ring when it was called. */
  datatype Pull = Pull(keep: bool, count: nat, size: nat, at: nat, bytes: seq<byte>)

  /** A finished `push` of `data` that took the bytes `taken`; `free` bytes were free at the call. */
  datatype Push = Push(data: seq<byte>, free: nat, taken: seq<byte>)

  /** Shared memory, the two threads, and the history of finished calls. */
  datatype State = State(order: nat, buf: seq<byte>, head: nat, tail: nat,
                         producer: Producer, consumer: Consumer,
                         first: seq<byte>, pushes: seq<Push>, pulls: seq<Pull>)

  datatype Action =
    | CallPush(data: seq<byte>)
    | LoadTailAndClamp
    | StoreByte(i: nat)
    | PublishTail
    | CallRead(count: nat, keep: bool)
    | LoadOtherTailAndClamp
    | LoadByte(i: nat)
    | FinishRead

  // ---- history -----------------------------------------------------------------------------

  function Taken(pushes: seq<Push>): seq<byte> {
    if pushes == [] then []
    else Taken(pushes[..|pushes| - 1]) + pushes[|pushes| - 1].taken
  }

  function Removed(pulls: seq<Pull>): seq<byte> {
    if pulls == [] then []
    else Removed(pulls[..|pulls| - 1]) + if pulls[|pulls| - 1].keep then [] else pulls[|pulls| - 1].bytes
  }

  /** Everything that was ever in the ring: what it held at the start and what `push` took. */
  function Accepted(s: State): seq<byte> { s.first + Taken(s.pushes) }

  function Popped(s: State): seq<byte> { Removed(s.pulls) }

  // ---- steps -------------------------------------------------------------------------------

  ghost predicate WellFormed(s: State) {
    && |s.buf| == Pow2(s.order) && s.head < |s.buf| && s.tail < |s.buf|
    && (s.producer.LoadedHead? ==> s.producer.h < |s.buf|)
    && (s.producer.Storing? ==> s.producer.h < |s.buf| && s.producer.t < |s.buf| && s.producer.len <= |s.producer.data|)
    && (s.consumer.LoadedOwnHead? ==> s.consumer.h < |s.buf|)
    && (s.consumer.Loading? ==> s.consumer.h < |s.buf| && s.consumer.t < |s.buf|)
  }

  /** Where the producer's copy puts byte `i`. */
  function StoreSlot(n: nat, p: Producer, i: nat): int
    requires n > 0 && p.Storing?
  {
    ChunkSlot(NextSlot(n, p.t), EnqueueChunk(n, p.h, p.t), p.len, i)
  }

  /** Where the consumer's copy finds byte `i`. */
  function LoadSlot(n: nat, c: Consumer, i: nat): int
    requires n > 0 && c.Loading?
  {
    ChunkSlot(NextSlot(n, c.h), DequeueChunk(n, c.h, c.t), c.len, i)
  }

  /** The copy of `len` bytes is complete. */
  ghost predicate Covers(copied: set<nat>, len: nat) {
    forall i: nat :: i in copied <==> i < len
  }

  ghost predicate Enabled(s: State, a: Action)
    requires WellFormed(s)
  {
    match a
    case CallPush(_) => s.producer.ProducerIdle?
    case LoadTailAndClamp => s.producer.LoadedHead?
    case StoreByte(i) =>
      s.producer.Storing? && i < s.producer.len && i !in s.producer.done
      && 0 <= StoreSlot(|s.buf|, s.producer, i) < |s.buf|
    case PublishTail => s.producer.Storing? && Covers(s.producer.done, s.producer.len)
    case CallRead(_, _) => s.consumer.ConsumerIdle?
    case LoadOtherTailAndClamp => s.consumer.LoadedOwnHead?
    case LoadByte(i) =>
      s.consumer.Loading? && i < s.consumer.len && i !in s.consumer.got
      && 0 <= LoadSlot(|s.buf|, s.consumer, i) < |s.buf|
    case FinishRead => s.consumer.Loading? && Covers(s.consumer.got.Keys, s.consumer.len)
  }

  ghost function Step(s: State, a: Action): State
    requires WellFormed(s) && Enabled(s, a)
  {
    var n := |s.buf|;
    match a
    case CallPush(data) => s.(producer := LoadedHead(data, n - 1 - Distance(n, s.head, s.tail), s.head))
    case LoadTailAndClamp =>
      var p := s.producer;
      s.(producer := Storing(p.data, p.free, p.h, s.tail, Min(|p.data|, FreeOf(n, p.h, s.tail)), {}))
    case StoreByte(i) =>
      var p := s.producer;
      s.(buf := s.buf[StoreSlot(n, p, i) := p.data[i]], producer := p.(done := p.done + {i}))
    case PublishTail =>
      var p := s.producer;
      s.(tail := Moved(n, p.t, p.len), producer := ProducerIdle,
         pushes := s.pushes + [Push(p.data, p.free, p.data[..p.len])])
    case CallRead(count, keep) => s.(consumer := LoadedOwnHead(count, keep, Distance(n, s.head, s.tail), s.head))
    case LoadOtherTailAndClamp =>
      var c := s.consumer;
      s.(consumer := Loading(c.count, c.keep, c.size, c.h, s.tail, Min(c.count, SizeOf(n, c.h, s.tail)), map[]))
    case LoadByte(i) =>
      var c := s.consumer;
      s.(consumer := c.(got := c.got[i := s.buf[LoadSlot(n, c, i)]]))
    case FinishRead =>
      var c := s.consumer;
      var bytes := Result(c);
      s.(head := if c.keep then s.head else Moved(n, c.h, c.len),
         consumer := ConsumerIdle,
         pulls := s.pulls + [Pull(c.keep, c.count, c.size, |Popped(s)|, bytes)])
  }

  ghost function Result(c: Consumer): (r: seq<byte>)
    requires c.Loading? && Covers(c.got.Keys, c.len)
  {
    seq(c.len, i requires 0 <= i < c.len => assert i in c.got.Keys; c.got[i])
  }

  ghost predicate Initial(s: State) {
    && |s.buf| == Pow2(s.order) && s.head < |s.buf| && s.tail < |s.buf|
    && s.producer == ProducerIdle && s.consumer == ConsumerIdle
    && s.first == Contents(s.buf, s.head, s.tail) && s.pushes == [] && s.pulls == []
  }

  /** `s'` is reached from `s` by the interleaving `run`. */
  ghost predicate Reaches(s: State, run: seq<Action>, s': State)
    decreases |run|
  {
    if run == [] then s == s'
    else WellFormed(s) && Enabled(s, run[0]) && Reaches(Step(s, run[0]), run[1..], s')
  }

  // ---- the invariant -----------------------------------------------------------------------

  /** Going round from `a`, `b` comes no later than `c`. */
  predicate InOrder(n: nat, a: nat, b: nat, c: nat)
    requires a < n && b < n && c < n
  {
    Distance(n, a, b) + Distance(n, b, c) == Distance(n, a, c)
  }

  /** The bytes copied so far are in the slots after the tail. */
  ghost predicate Stored(buf: seq<byte>, t: nat, data: seq<byte>, len: nat, done: set<nat>)
    requires t < |buf| && len < |buf| && len <= |data|
  {
    forall i: nat | i in done :: i < len && buf[Advance(|buf|, t, i + 1)] == data[i]
  }

  ghost predicate ProducerInv(s: State)
    requires WellFormed(s)
  {
    var n := |s.buf|;
    match s.producer
    case ProducerIdle => true
    case LoadedHead(_, free, h) => InOrder(n, h, s.head, s.tail) && free == n - 1 - Distance(n, h, s.tail)
    case Storing(data, free, h, t, len, done) =>
      && t == s.tail && InOrder(n, h, s.head, t) && free == n - 1 - Distance(n, h, t)
      && len == Min(|data|, n - 1 - Distance(n, h, t))
      && Stored(s.buf, t, data, len, done)
  }

  ghost predicate ConsumerInv(s: State)
    requires WellFormed(s)
  {
    var n := |s.buf|;
    match s.consumer
    case ConsumerIdle => true
    case LoadedOwnHead(_, _, size, h) => h == s.head && size <= Distance(n, h, s.tail)
    case Loading(count, _, size, h, t, len, got) =>
      && h == s.head && InOrder(n, h, t, s.tail)
      && size <= Distance(n, h, t) && len == Min(count, Distance(n, h, t))
      && (forall i | i in got :: i < len && got[i] == Contents(s.buf, s.head, s.tail)[i])
  }

  /** Every finished read returned a stretch of the accepted bytes. */
  predicate PullsAgree(s: State) {
    forall r | r in s.pulls :: r.at + |r.bytes| <= |Accepted(s)| && Accepted(s)[r.at..r.at + |r.bytes|] == r.bytes
  }

  ghost predicate Inv(s: State) {
    && WellFormed(s) && ProducerInv(s) && ConsumerInv(s)
    && Accepted(s) == Popped(s) + Contents(s.buf, s.head, s.tail)
    && PullsAgree(s)
    && (forall w | w in s.pushes :: PushedEnough(w)) && (forall r | r in s.pulls :: PulledEnough(r))
  }

  /** A `push` takes the first bytes of its data, as many as were free when it was called. */
  predicate PushedEnough(w: Push) {
    w.taken <= w.data && |w.taken| == Min(|w.data|, w.free)
  }

  /** A `pop` or `front` returns no more than it was asked for, and no less than was there when it was
      called. */
  predicate PulledEnough(r: Pull) {
    Min(r.count, r.size) <= |r.bytes| <= r.count
  }

  lemma InitialInv(s: State)
    requires Initial(s)
    ensures Inv(s)
  {
  }

  lemma StoreSlotIs(s: State, i: nat)
    requires Inv(s) && s.producer.Storing? && i < s.producer.len
    ensures StoreSlot(|s.buf|, s.producer, i) == Advance(|s.buf|, s.tail, i + 1)
  {
    EnqueueSlots(s.order, s.producer.h, s.producer.t, s.producer.len, i);
  }

  lemma LoadSlotIs(s: State, i: nat)
    requires Inv(s) && s.consumer.Loading? && i < s.consumer.len
    ensures LoadSlot(|s.buf|, s.consumer, i) == Advance(|s.buf|, s.head, i + 1)
  {
    DequeueSlots(s.order, s.consumer.h, s.consumer.t, s.consumer.len, i);
  }

  /** A slot the producer still may write is never a slot that holds an unread byte. */
  lemma StoreMissesUnread(n: nat, h: nat, t: nat, i: nat, j: nat)
    requires h < n && t < n && i + 1 < n && j < Distance(n, h, t)
    requires Distance(n, h, t) + i < n - 1
    ensures Advance(n, t, i + 1) != Advance(n, h, j + 1)
  {
  }

  /** A byte stored by the producer changes no unread byte. */
  lemma StoreKeepsUnread(s: State, i: nat)
    requires Inv(s) && Enabled(s, StoreByte(i))
    ensures var s' := Step(s, StoreByte(i)); Contents(s'.buf, s'.head, s'.tail) == Contents(s.buf, s.head, s.tail)
  {
    var s', n := Step(s, StoreByte(i)), |s.buf|;
    StoreSlotIs(s, i);
    forall j: nat {:trigger Advance(n, s.head, j + 1)} | j < Distance(n, s.head, s.tail)
      ensures s'.buf[Advance(n, s.head, j + 1)] == s.buf[Advance(n, s.head, j + 1)]
    {
      StoreMissesUnread(n, s.head, s.tail, i, j);
    }
    SameContents(s.buf, s'.buf, s.head, s.tail);
  }

  lemma StoreStep(s: State, i: nat)
    requires Inv(s) && Enabled(s, StoreByte(i))
    ensures Inv(Step(s, StoreByte(i)))
  {
    hide BitAnd, Contents, Taken, Removed;
    var s', n, p := Step(s, StoreByte(i)), |s.buf|, s.producer;
    StoreSlotIs(s, i);
    StoreKeepsUnread(s, i);
    forall j: nat | j in s'.producer.done
      ensures j < p.len && s'.buf[Advance(n, p.t, j + 1)] == p.data[j]
    {
      if j != i {
        assert p.data[j] == s.buf[Advance(n, p.t, j + 1)];
      }
    }
    assert ProducerInv(s');
    assert ConsumerInv(s');
  }

  lemma LoadTailStep(s: State)
    requires Inv(s) && Enabled(s, LoadTailAndClamp)
    ensures Inv(Step(s, LoadTailAndClamp))
  {
    hide BitAnd, Contents, Taken, Removed;
    MaskedGeometry(s.order, s.producer.h, s.tail);
  }

  lemma PublishStep(s: State)
    requires Inv(s) && Enabled(s, PublishTail)
    ensures Inv(Step(s, PublishTail))
    ensures Contents(Step(s, PublishTail).buf, Step(s, PublishTail).head, Step(s, PublishTail).tail)
         == Contents(s.buf, s.head, s.tail) + s.producer.data[..s.producer.len]
  {
    hide BitAnd, Contents, Taken, Removed;
    var s', n, p := Step(s, PublishTail), |s.buf|, s.producer;
    PublishedContents(s);
    TakenOneMore(s.pushes, Push(p.data, p.free, p.data[..p.len]));
    AppendAssociates(s.first, Taken(s.pushes), p.data[..p.len]);
    assert Popped(s') == Popped(s);
    PublishedPulls(s, s', p.data[..p.len]);
    AppendAssociates(Popped(s), Contents(s.buf, s.head, s.tail), p.data[..p.len]);
    MovedIsAdvance(s.order, p.t, p.len);
  }

  lemma AppendAssociates(a: seq<byte>, b: seq<byte>, c: seq<byte>)
    ensures (a + b) + c == a + (b + c)
  {
  }

  lemma PublishedContents(s: State)
    requires Inv(s) && Enabled(s, PublishTail)
    ensures Contents(s.buf, s.head, Moved(|s.buf|, s.producer.t, s.producer.len))
         == Contents(s.buf, s.head, s.tail) + s.producer.data[..s.producer.len]
  {
    var n, p := |s.buf|, s.producer;
    var data := p.data[..p.len];
    MovedIsAdvance(s.order, p.t, p.len);
    forall i {:trigger data[i]} | 0 <= i < p.len ensures s.buf[Advance(n, p.t, i + 1)] == data[i] {
      assert i in p.done && p.data[i] == data[i];
    }
    AppendedContents(s.buf, s.buf, s.head, s.tail, data);
  }

  lemma PublishedPulls(s: State, s': State, more: seq<byte>)
    requires PullsAgree(s) && s'.pulls == s.pulls && Accepted(s') == Accepted(s) + more
    ensures PullsAgree(s')
  {
  }

  lemma LoadByteStep(s: State, i: nat)
    requires Inv(s) && Enabled(s, LoadByte(i))
    ensures Inv(Step(s, LoadByte(i)))
  {
    hide BitAnd, Taken, Removed;
    LoadSlotIs(s, i);
    assert s.buf[Advance(|s.buf|, s.head, i + 1)] == Contents(s.buf, s.head, s.tail)[i];
  }

  lemma LoadOtherTailStep(s: State)
    requires Inv(s) && Enabled(s, LoadOtherTailAndClamp)
    ensures Inv(Step(s, LoadOtherTailAndClamp))
  {
    hide BitAnd, Contents, Taken, Removed;
    MaskedGeometry(s.order, s.consumer.h, s.tail);
  }

  lemma FinishStep(s: State)
    requires Inv(s) && Enabled(s, FinishRead)
    ensures Inv(Step(s, FinishRead))
  {
    FinishedContents(s);
    FinishedHistory(s);
    FinishedThreads(s);
    hide BitAnd, Contents, Taken, Removed, PulledEnough, PushedEnough, PullsAgree, ProducerInv, ConsumerInv;
  }

  lemma FinishedThreads(s: State)
    requires Inv(s) && Enabled(s, FinishRead)
    ensures var s' := Step(s, FinishRead);
            && WellFormed(s') && ProducerInv(s') && ConsumerInv(s')
            && (forall w | w in s'.pushes :: PushedEnough(w))
  {
    hide BitAnd, Contents, Taken, Removed, PulledEnough, PullsAgree, PushedEnough;
    var s', c := Step(s, FinishRead), s.consumer;
    MovedIsAdvance(s.order, c.h, c.len);
    HeadMoveKeepsOrder(|s.buf|, s.producer, s.head, s'.head, s.tail);
  }

  /** A finished `pop` has dropped the oldest bytes, a finished `front` nothing. */
  lemma FinishedContents(s: State)
    requires Inv(s) && Enabled(s, FinishRead)
    ensures s.consumer.len <= Distance(|s.buf|, s.head, s.tail)
    ensures Contents(s.buf, Step(s, FinishRead).head, s.tail)
         == Contents(s.buf, s.head, s.tail)[if s.consumer.keep then 0 else s.consumer.len..]
  {
    MovedIsAdvance(s.order, s.consumer.h, s.consumer.len);
    DroppedContents(s.buf, s.head, s.tail, s.consumer.len);
  }

  lemma FinishedHistory(s: State)
    requires Inv(s) && Enabled(s, FinishRead)
    ensures var s', q := Step(s, FinishRead), Contents(s.buf, s.head, s.tail);
            && PullsAgree(s') && Accepted(s') == Accepted(s) && (forall r | r in s'.pulls :: PulledEnough(r))
            && Accepted(s') == Popped(s') + q[if s.consumer.keep then 0 else s.consumer.len..]
  {
    hide BitAnd, Contents, Taken, Removed;
    var s', c, q := Step(s, FinishRead), s.consumer, Contents(s.buf, s.head, s.tail);
    ResultIsOldest(s);
    RemovedOneMore(s.pulls, Pull(c.keep, c.count, c.size, |Popped(s)|, q[..c.len]));
    OldestOfAccepted(Accepted(s), Popped(s), q, c.len);
    assert Popped(s') == Popped(s) + if c.keep then [] else q[..c.len];
  }

  lemma RemovedOneMore(pulls: seq<Pull>, r: Pull)
    ensures Removed(pulls + [r]) == Removed(pulls) + if r.keep then [] else r.bytes
  {
    assert (pulls + [r])[..|pulls|] == pulls;
  }

  lemma TakenOneMore(pushes: seq<Push>, w: Push)
    ensures Taken(pushes + [w]) == Taken(pushes) + w.taken
  {
    assert (pushes + [w])[..|pushes|] == pushes;
  }

  lemma OldestOfAccepted(accepted: seq<byte>, popped: seq<byte>, q: seq<byte>, len: nat)
    requires accepted == popped + q && len <= |q|
    ensures accepted[|popped|..|popped| + len] == q[..len]
    ensures accepted == (popped + q[..len]) + q[len..]
    ensures accepted == (popped + []) + q[0..]
  {
  }

  lemma ResultIsOldest(s: State)
    requires Inv(s) && Enabled(s, FinishRead)
    ensures s.consumer.len <= |Contents(s.buf, s.head, s.tail)|
    ensures Result(s.consumer) == Contents(s.buf, s.head, s.tail)[..s.consumer.len]
  {
  }

  /** A head that moves over unread bytes stays between a producer's old copy of it and the tail. */
  lemma HeadMoveKeepsOrder(n: nat, p: Producer, head: nat, head': nat, tail: nat)
    requires head < n && head' < n && tail < n && InOrder(n, head, head', tail)
    requires p.LoadedHead? || p.Storing? ==> p.h < n && InOrder(n, p.h, head, tail)
    ensures p.LoadedHead? || p.Storing? ==> InOrder(n, p.h, head', tail)
  {
  }

  lemma StepKeepsInv(s: State, a: Action)
    requires Inv(s) && Enabled(s, a)
    ensures Inv(Step(s, a))
  {
    match a
    case CallPush(_) =>
    case LoadTailAndClamp => LoadTailStep(s);
    case StoreByte(i) => StoreStep(s, i);
    case PublishTail => PublishStep(s);
    case CallRead(_, _) =>
    case LoadOtherTailAndClamp => LoadOtherTailStep(s);
    case LoadByte(i) => LoadByteStep(s, i);
    case FinishRead => FinishStep(s);
  }

  lemma {:induction false} RunKeepsInv(s: State, run: seq<Action>, s': State)
    requires Inv(s) && Reaches(s, run, s')
    ensures Inv(s')
    decreases |run|
  {
    if run != [] {
      StepKeepsInv(s, run[0]);
      RunKeepsInv(Step(s, run[0]), run[1..], s');
    }
  }

  // ---- main results ------------------------------------------------------------------------

  /** In every interleaving the removed bytes are the oldest accepted bytes, in order; the rest is
      in the ring; and every `pop` and `front` returned a stretch of the accepted bytes that starts
      where the removed ones ended, no longer than asked for and not cut short of what was in the ring
      at the call. Every `push` took as much as was free at its call. */
  lemma FifoInEveryRun(s: State, run: seq<Action>, s': State)
    requires Initial(s) && Reaches(s, run, s')
    ensures WellFormed(s')
    ensures Accepted(s') == Popped(s') + Contents(s'.buf, s'.head, s'.tail)
    ensures |Accepted(s')| - |Popped(s')| <= |s'.buf| - 1
    ensures forall r | r in s'.pulls :: r.at + |r.bytes| <= |Accepted(s')|
                                        && Accepted(s')[r.at..r.at + |r.bytes|] == r.bytes
    ensures forall r | r in s'.pulls :: Min(r.count, r.size) <= |r.bytes| <= r.count
    ensures forall w | w in s'.pushes :: w.taken <= w.data && |w.taken| == Min(|w.data|, w.free)
  {
    InitialInv(s);
    RunKeepsInv(s, run, s');
  }

  /** The slots of a `push` in progress, the slots of a read in progress and the slots of all
      unread bytes: the first are disjoint from the others in every reachable state. */
  lemma SlotsDisjointInEveryRun(s: State, run: seq<Action>, s': State, i: nat)
    requires Initial(s) && Reaches(s, run, s')
    requires s'.producer.Storing? && i < s'.producer.len
    ensures WellFormed(s') && 0 <= StoreSlot(|s'.buf|, s'.producer, i) < |s'.buf|
    ensures s'.consumer.Loading? ==>
              forall j: nat | j < s'.consumer.len ::
                StoreSlot(|s'.buf|, s'.producer, i) != LoadSlot(|s'.buf|, s'.consumer, j)
    ensures forall j: nat {:trigger Advance(|s'.buf|, s'.head, j + 1)} | j < Distance(|s'.buf|, s'.head, s'.tail) ::
              StoreSlot(|s'.buf|, s'.producer, i) != Advance(|s'.buf|, s'.head, j + 1)
  {
    InitialInv(s);
    RunKeepsInv(s, run, s');
    StoreSlotIs(s', i);
    if s'.consumer.Loading? {
      forall j: nat | j < s'.consumer.len
        ensures StoreSlot(|s'.buf|, s'.producer, i) != LoadSlot(|s'.buf|, s'.consumer, j)
      {
        LoadSlotIs(s', j);
        StoreMissesUnread(|s'.buf|, s'.head, s'.tail, i, j);
      }
    }
  }

  /** A stale copy of the other side's pointer never promises more than there is. */
  lemma StaleSnapshotsUnderestimate(s: State, run: seq<Action>, s': State)
    requires Initial(s) && Reaches(s, run, s')
    ensures WellFormed(s')
    ensures s'.producer.Storing? ==>
              FreeOf(|s'.buf|, s'.producer.h, s'.producer.t) <= FreeOf(|s'.buf|, s'.head, s'.tail)
    ensures s'.consumer.Loading? ==>
              SizeOf(|s'.buf|, s'.consumer.h, s'.consumer.t) <= SizeOf(|s'.buf|, s'.head, s'.tail)
  {
    InitialInv(s);
    RunKeepsInv(s, run, s');
    MaskedGeometry(s'.order, s'.head, s'.tail);
    if s'.producer.Storing? { MaskedGeometry(s'.order, s'.producer.h, s'.producer.t); }
    if s'.consumer.Loading? { MaskedGeometry(s'.order, s'.consumer.h, s'.consumer.t); }
  }

  predicate ByProducer(a: Action) {
    a.CallPush? || a.LoadTailAndClamp? || a.StoreByte? || a.PublishTail?
  }

  /** Neither thread ever waits for the other: in every reachable state each has a step of its own. */
  lemma NeitherThreadBlocks(s: State, run: seq<Action>, s': State)
    requires Initial(s) && Reaches(s, run, s')
    ensures WellFormed(s')
    ensures exists a :: ByProducer(a) && Enabled(s', a)
    ensures exists a :: !ByProducer(a) && Enabled(s', a)
  {
    InitialInv(s);
    RunKeepsInv(s, run, s');
    var a := ProducerNext(s');
    var c := ConsumerNext(s');
  }

  lemma ProducerNext(s: State) returns (a: Action)
    requires Inv(s)
    ensures ByProducer(a) && Enabled(s, a)
  {
    match s.producer
    case ProducerIdle => a := CallPush([]);
    case LoadedHead(_, _, _) => a := LoadTailAndClamp;
    case Storing(_, _, _, _, len, done) =>
      if i: nat :| i < len && i !in done {
        StoreSlotIs(s, i);
        a := StoreByte(i);
      } else {
        a := PublishTail;
      }
  }

  lemma ConsumerNext(s: State) returns (a: Action)
    requires Inv(s)
    ensures !ByProducer(a) && Enabled(s, a)
  {
    match s.consumer
    case ConsumerIdle => a := CallRead(0, true);
    case LoadedOwnHead(_, _, _, _) => a := LoadOtherTailAndClamp;
    case Loading(_, _, _, _, _, len, got) =>
      if i: nat :| i < len && i !in got {
        LoadSlotIs(s, i);
        a := LoadByte(i);
      } else {
        a := FinishRead;
      }
  }

  // ---- refinement of a bounded queue ---------------------------------------------------------

  datatype QueueOp = Stutter | Enqueue(bytes: seq<byte>) | Dequeue(count: nat)

  ghost predicate QueueStep(capacity: nat, q: seq<byte>, op: QueueOp, q': seq<byte>) {
    match op
    case Stutter => q' == q
    case Enqueue(bytes) => |q| + |bytes| <= capacity && q' == q + bytes
    case Dequeue(count) => count <= |q| && q' == q[count..]
  }

  /** The operation of the bounded queue a step performs: only the two publications do anything. */
  ghost function Abstract(s: State, a: Action): QueueOp
    requires WellFormed(s) && Enabled(s, a)
  {
    match a
    case PublishTail => Enqueue(s.producer.data[..s.producer.len])
    case FinishRead => if s.consumer.keep then Stutter else Dequeue(s.consumer.len)
    case _ => Stutter
  }

  /** Every step from a reachable state is a step of a bounded queue of capacity `bufferSize - 1`;
      a read returns the oldest bytes, cut short only by the size it saw; and a `push` is cut short
      only by the free size it saw. */
  lemma RefinesBoundedQueue(s: State, run: seq<Action>, s': State, a: Action)
    requires Initial(s) && Reaches(s, run, s') && WellFormed(s') && Enabled(s', a)
    ensures WellFormed(Step(s', a))
    ensures var s'' := Step(s', a);
            QueueStep(|s'.buf| - 1, Contents(s'.buf, s'.head, s'.tail), Abstract(s', a),
                      Contents(s''.buf, s''.head, s''.tail))
    ensures a.FinishRead? ==>
              && s'.consumer.len <= |Contents(s'.buf, s'.head, s'.tail)|
              && Result(s'.consumer) == Contents(s'.buf, s'.head, s'.tail)[..s'.consumer.len]
              && s'.consumer.len == Min(s'.consumer.count, Distance(|s'.buf|, s'.consumer.h, s'.consumer.t))
    ensures a.PublishTail? ==>
              s'.producer.len == Min(|s'.producer.data|, |s'.buf| - 1 - Distance(|s'.buf|, s'.producer.h, s'.tail))
  {
    hide BitAnd, Contents, Taken, Removed;
    InitialInv(s);
    RunKeepsInv(s, run, s');
    StepKeepsInv(s', a);
    match a
    case StoreByte(i) => StoreKeepsUnread(s', i);
    case PublishTail => PublishStep(s');
    case FinishRead => FinishedContents(s'); ResultIsOldest(s');
    case _ =>
  }

  // ---- from call to return -------------------------------------------------------------------

  predicate Reading(c: Consumer, count: nat, keep: bool, size: nat) {
    (c.LoadedOwnHead? || c.Loading?) && c.count == count && c.keep == keep && c.size == size
  }

  predicate Pushing(p: Producer, data: seq<byte>, free: nat) {
    (p.LoadedHead? || p.Storing?) && p.data == data && p.free == free
  }

  lemma {:induction false} ReadGoesOn(s: State, run: seq<Action>, s': State, count: nat, keep: bool, size: nat)
    requires Inv(s) && Reaches(s, run, s') && FinishRead !in run && Reading(s.consumer, count, keep, size)
    ensures Inv(s') && Reading(s'.consumer, count, keep, size)
    decreases |run|
  {
    hide Inv;
    if run != [] {
      StepKeepsInv(s, run[0]);
      assert Reading(Step(s, run[0]).consumer, count, keep, size);
      hide Step, Enabled, WellFormed;
      ReadGoesOn(Step(s, run[0]), run[1..], s', count, keep, size);
    }
  }

  lemma {:induction false} PushGoesOn(s: State, run: seq<Action>, s': State, data: seq<byte>, free: nat)
    requires Inv(s) && Reaches(s, run, s') && PublishTail !in run && Pushing(s.producer, data, free)
    ensures Inv(s') && Pushing(s'.producer, data, free)
    decreases |run|
  {
    hide Inv;
    if run != [] {
      StepKeepsInv(s, run[0]);
      assert Pushing(Step(s, run[0]).producer, data, free);
      hide Step, Enabled, WellFormed;
      PushGoesOn(Step(s, run[0]), run[1..], s', data, free);
    }
  }

  /** Whatever the producer does between: a `pop` or `front` of `count` bytes returns no more than that,
      and no less than the ring held when it was called. */
  lemma ReadSinceCall(s: State, before: seq<Action>, s1: State, count: nat, keep: bool, run: seq<Action>, s2: State)
    requires Initial(s) && Reaches(s, before, s1) && WellFormed(s1) && Enabled(s1, CallRead(count, keep))
    requires Reaches(Step(s1, CallRead(count, keep)), run, s2) && FinishRead !in run
    requires WellFormed(s2) && Enabled(s2, FinishRead)
    ensures s2.consumer.keep == keep
    ensures Min(count, |Contents(s1.buf, s1.head, s1.tail)|) <= |Result(s2.consumer)| <= count
  {
    hide BitAnd, Taken, Removed, Inv;
    InitialInv(s);
    RunKeepsInv(s, before, s1);
    StepKeepsInv(s1, CallRead(count, keep));
    ReadGoesOn(Step(s1, CallRead(count, keep)), run, s2, count, keep, |Contents(s1.buf, s1.head, s1.tail)|);
    ReadLengthIs(s2);
  }

  lemma ReadLengthIs(s: State)
    requires Inv(s) && s.consumer.Loading?
    ensures Min(s.consumer.count, s.consumer.size) <= s.consumer.len <= s.consumer.count
  {
    hide BitAnd, Contents, Taken, Removed;
  }

  /** Whatever the consumer does between: a `push` takes the first bytes of its data, as many as were free
      when it was called. */
  lemma PushSinceCall(s: State, before: seq<Action>, s1: State, data: seq<byte>, run: seq<Action>, s2: State)
    requires Initial(s) && Reaches(s, before, s1) && WellFormed(s1) && Enabled(s1, CallPush(data))
    requires Reaches(Step(s1, CallPush(data)), run, s2) && PublishTail !in run
    requires WellFormed(s2) && Enabled(s2, PublishTail)
    ensures s2.producer.data == data
    ensures s2.producer.len == Min(|data|, |s1.buf| - 1 - |Contents(s1.buf, s1.head, s1.tail)|)
  {
    hide BitAnd, Taken, Removed, Inv;
    InitialInv(s);
    RunKeepsInv(s, before, s1);
    StepKeepsInv(s1, CallPush(data));
    PushGoesOn(Step(s1, CallPush(data)), run, s2, data, |s1.buf| - 1 - |Contents(s1.buf, s1.head, s1.tail)|);
    PushLengthIs(s2);
  }

  lemma PushLengthIs(s: State)
    requires Inv(s) && s.producer.Storing?
    ensures s.producer.len == Min(|s.producer.data|, s.producer.free)
  {
    hide BitAnd, Contents, Taken, Removed;
  }
}

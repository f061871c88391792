/** Who refers to which pooled serializer: the state that the lifetime functions of `packet.h` change,
    together with the ledger of raw pointers that carry a reference of their own. */
module PacketModel {
  import opened Options

  datatype Event<B> = Alloc(b: B) | Free(b: B)

  /** `count`: the reference counters. `held`: the `buffer` field of each packet in existence.
      `raw`: per serializer, the references handed around as bare pointers. `log`: what the pool
      gave out and got back. */
  datatype World<B, P> = World(count: map<B, int>, live: set<B>, pooled: set<B>,
                               held: map<P, Option<B>>, raw: map<B, int>, log: seq<Event<B>>)

  datatype Op<B, P> =
    | New(p: P, b: B)                    // packet(), the pool giving out b
    | AllocRaw(b: B)                     // serializerAlloc and a first increment
    | Copy(p: P, other: P)               // packet(packet&)
    | Adopt(p: P, s: Option<B>)          // packet(serializer*), which does not increment
    | Increment(p: P, n: int)
    | Decrement(p: P, n: int)
    | AssignPacket(p: P, other: P)
    | AssignRaw(p: P, s: Option<B>)      // operator =(serializer*), which does not increment
    | Retain(b: B)                       // an increment through a bare pointer
    | Release(b: B)                      // a decrement through a bare pointer, freeing at 0
    | Destroy(p: P)

  function Get<K, V>(m: map<K, V>, k: K, default: V): V {
    if k in m then m[k] else default
  }

  // ---- steps ---------------------------------------------------------------------------------

  function Add<B, P>(w: World<B, P>, b: B, n: int): World<B, P> {
    w.(count := w.count[b := Get(w.count, b, 0) + n])
  }

  function Owe<B, P>(w: World<B, P>, b: B, n: int): World<B, P> {
    w.(raw := w.raw[b := Get(w.raw, b, 0) + n])
  }

  /** `Free` when the counter has come down to 0. */
  function FreeAtZero<B, P>(w: World<B, P>, b: B): World<B, P> {
    if Get(w.count, b, 0) == 0
    then w.(live := w.live - {b}, pooled := w.pooled + {b}, log := w.log + [Free(b)])
    else w
  }

  /** `if (buffer != nullptr && buffer->decReferenceCounter() == 0) Free(buffer)`. */
  function Drop<B, P>(w: World<B, P>, s: Option<B>): World<B, P> {
    match s
    case None => w
    case Some(b) => FreeAtZero(Add(w, b, -1), b)
  }

  function Hand<B, P>(w: World<B, P>, b: B): World<B, P> {
    Add(w.(live := w.live + {b}, pooled := w.pooled - {b}, log := w.log + [Alloc(b)]), b, 1)
  }

  /** The packets, and for a copy the buffer, that the C++ expression needs to exist. */
  predicate WellTyped<B, P>(w: World<B, P>, op: Op<B, P>) {
    match op
    case New(p, b) => p !in w.held && b !in w.live
    case AllocRaw(b) => b !in w.live
    case Copy(p, other) => p !in w.held && other in w.held && w.held[other].Some?
    case Adopt(p, _) => p !in w.held
    case Increment(p, _) => p in w.held
    case Decrement(p, _) => p in w.held
    case AssignPacket(p, other) => p in w.held && other in w.held && w.held[other].Some?
    case AssignRaw(p, _) => p in w.held
    case Retain(_) => true
    case Release(_) => true
    case Destroy(p) => p in w.held
  }

  function Step<B, P>(w: World<B, P>, op: Op<B, P>): World<B, P>
    requires WellTyped(w, op)
  {
    match op
    case New(p, b) => Hand(w, b).(held := w.held[p := Some(b)])
    case AllocRaw(b) => Owe(Hand(w, b), b, 1)
    case Copy(p, other) => Add(w, w.held[other].value, 1).(held := w.held[p := w.held[other]])
    case Adopt(p, s) =>
      var w1 := w.(held := w.held[p := s]);
      if s.Some? then Owe(w1, s.value, -1) else w1
    case Increment(p, n) =>
      (match w.held[p]
       case None => w
       case Some(b) => Owe(Add(w, b, n), b, n))
    case Decrement(p, n) =>
      (match w.held[p]
       case None => w
       case Some(b) =>
         var w1 := Add(w, b, -n);
         if w1.count[b] == 0
         then Owe(FreeAtZero(w1, b), b, 1 - n).(held := w.held[p := None])
         else Owe(w1, b, -n))
    case AssignPacket(p, other) =>
      var w1 := Add(w, w.held[other].value, 1);
      Drop(w1, w.held[p]).(held := w.held[p := w.held[other]])
    case AssignRaw(p, s) =>
      var w1 := Drop(w, w.held[p]).(held := w.held[p := s]);
      if s.Some? then Owe(w1, s.value, -1) else w1
    case Retain(s) => Owe(Add(w, s, 1), s, 1)
    case Release(s) => FreeAtZero(Owe(Add(w, s, -1), s, -1), s)
    case Destroy(p) => Drop(w, w.held[p]).(held := w.held - {p})
  }

  lemma DecrementSteps<B, P>(w: World<B, P>, p: P, n: int)
    requires p in w.held && w.held[p].Some?
    ensures var b := w.held[p].value;
            var w1 := Add(w, b, -n);
            Step(w, Decrement(p, n)) ==
              if w1.count[b] == 0 then Owe(FreeAtZero(w1, b), b, 1 - n).(held := w.held[p := None])
              else Owe(w1, b, -n)
  {
  }

  /** By how much each operation changes the counter of each serializer. */
  lemma CountAfterStep<B, P>(w: World<B, P>, op: Op<B, P>, b: B)
    requires WellTyped(w, op)
    ensures var change := Get(Step(w, op).count, b, 0) - Get(w.count, b, 0);
            match op
            case New(_, s) => change == if s == b then 1 else 0
            case AllocRaw(s) => change == if s == b then 1 else 0
            case Copy(_, other) => change == if w.held[other] == Some(b) then 1 else 0
            case Adopt(_, _) => change == 0
            case Increment(p, n) => change == if w.held[p] == Some(b) then n else 0
            case Decrement(p, n) => change == if w.held[p] == Some(b) then -n else 0
            case AssignPacket(p, other) =>
              change == (if w.held[other] == Some(b) then 1 else 0) - (if w.held[p] == Some(b) then 1 else 0)
            case AssignRaw(p, _) => change == if w.held[p] == Some(b) then -1 else 0
            case Retain(s) => change == if s == b then 1 else 0
            case Release(s) => change == if s == b then -1 else 0
            case Destroy(p) => change == if w.held[p] == Some(b) then -1 else 0
  {
    hide FreeAtZero, Add, Owe;
    match op
    case New(_, s) =>
      CountAfterAdd(w.(live := w.live + {s}, pooled := w.pooled - {s}, log := w.log + [Alloc(s)]), s, 1, b);
    case AllocRaw(s) =>
      CountAfterAdd(w.(live := w.live + {s}, pooled := w.pooled - {s}, log := w.log + [Alloc(s)]), s, 1, b);
      CountAfterOwe(Hand(w, s), s, 1);
    case Copy(_, other) => CountAfterAdd(w, w.held[other].value, 1, b);
    case Adopt(p, s) => if s.Some? { CountAfterOwe(w.(held := w.held[p := s]), s.value, -1); }
    case Increment(p, n) =>
      if w.held[p].Some? {
        CountAfterAdd(w, w.held[p].value, n, b);
        CountAfterOwe(Add(w, w.held[p].value, n), w.held[p].value, n);
      }
    case Decrement(p, n) =>
      if w.held[p].Some? {
        var c := w.held[p].value;
        var w1 := Add(w, c, -n);
        CountAfterAdd(w, c, -n, b);
        CountAfterFree(w1, c);
        CountAfterOwe(FreeAtZero(w1, c), c, 1 - n);
        CountAfterOwe(w1, c, -n);
      }
    case AssignPacket(p, other) =>
      CountAfterAdd(w, w.held[other].value, 1, b);
      CountAfterDrop(Add(w, w.held[other].value, 1), w.held[p], b);
    case AssignRaw(p, s) =>
      CountAfterDrop(w, w.held[p], b);
      if s.Some? { CountAfterOwe(Drop(w, w.held[p]).(held := w.held[p := s]), s.value, -1); }
    case Retain(s) =>
      CountAfterAdd(w, s, 1, b);
      CountAfterOwe(Add(w, s, 1), s, 1);
    case Release(s) =>
      CountAfterAdd(w, s, -1, b);
      CountAfterOwe(Add(w, s, -1), s, -1);
      CountAfterFree(Owe(Add(w, s, -1), s, -1), s);
    case Destroy(p) => CountAfterDrop(w, w.held[p], b);
  }

  lemma CountAfterAdd<B, P>(w: World<B, P>, c: B, n: int, b: B)
    ensures Get(Add(w, c, n).count, b, 0) == Get(w.count, b, 0) + if b == c then n else 0
    ensures Add(w, c, n).held == w.held
  {
  }

  lemma CountAfterOwe<B, P>(w: World<B, P>, c: B, n: int)
    ensures Owe(w, c, n).count == w.count && Owe(w, c, n).held == w.held
  {
  }

  lemma CountAfterFree<B, P>(w: World<B, P>, c: B)
    ensures FreeAtZero(w, c).count == w.count && FreeAtZero(w, c).held == w.held
  {
  }

  lemma CountAfterDrop<B, P>(w: World<B, P>, s: Option<B>, b: B)
    ensures Get(Drop(w, s).count, b, 0) == Get(w.count, b, 0) - if s == Some(b) then 1 else 0
  {
    hide FreeAtZero, Add;
    if s.Some? {
      CountAfterAdd(w, s.value, -1, b);
      CountAfterFree(Add(w, s.value, -1), s.value);
    }
  }

  /** The serializer an operation takes a reference off. */
  function Loser<B, P>(w: World<B, P>, op: Op<B, P>): Option<B>
    requires WellTyped(w, op)
  {
    match op
    case Decrement(p, _) => w.held[p]
    case AssignPacket(p, _) => w.held[p]
    case AssignRaw(p, _) => w.held[p]
    case Destroy(p) => w.held[p]
    case Release(s) => Some(s)
    case _ => None
  }

  /** What goes into the pool and comes out: an operation gives a serializer back exactly when it takes
      references off its counter and leaves it at 0. */
  lemma PoolAfterStep<B, P>(w: World<B, P>, op: Op<B, P>)
    requires WellTyped(w, op)
    ensures var w', loser := Step(w, op), Loser(w, op);
            (w'.live, w'.pooled, w'.log) ==
              if op.New? || op.AllocRaw? then (w.live + {op.b}, w.pooled - {op.b}, w.log + [Alloc(op.b)])
              else if loser.Some? && Get(w'.count, loser.value, 0) == 0
              then (w.live - {loser.value}, w.pooled + {loser.value}, w.log + [Free(loser.value)])
              else (w.live, w.pooled, w.log)
  {
  }

  /** Where each packet points afterwards. */
  lemma HeldAfterStep<B, P>(w: World<B, P>, op: Op<B, P>)
    requires WellTyped(w, op)
    ensures var held := Step(w, op).held;
            match op
            case New(p, b) => held == w.held[p := Some(b)]
            case Copy(p, other) => held == w.held[p := w.held[other]]
            case Adopt(p, s) => held == w.held[p := s]
            case AssignPacket(p, other) => held == w.held[p := w.held[other]]
            case AssignRaw(p, s) => held == w.held[p := s]
            case Destroy(p) => held == w.held - {p}
            case Decrement(p, n) =>
              held == if w.held[p].Some? && Get(w.count, w.held[p].value, 0) == n then w.held[p := None] else w.held
            case _ => held == w.held
  {
  }

  // ---- conservation --------------------------------------------------------------------------

  ghost function Pointing<B, P>(held: map<P, Option<B>>, b: B): set<P> {
    set p | p in held && held[p] == Some(b)
  }

  /** The serializers out of the pool after the logged calls; `None` if one was given out twice or
      taken back twice. */
  function Replay<B>(log: seq<Event<B>>): Option<set<B>> {
    if log == [] then Some({})
    else match Replay(log[..|log| - 1])
      case None => None
      case Some(out) =>
        match log[|log| - 1]
        case Alloc(b) => if b in out then None else Some(out + {b})
        case Free(b) => if b in out then Some(out - {b}) else None
  }

  /** What the counter has over the packets pointing there and the bare references. */
  ghost function Balance<B, P>(w: World<B, P>, b: B): int {
    Get(w.count, b, 0) - |Pointing(w.held, b)| - Get(w.raw, b, 0)
  }

  /** Every counter is the packets pointing there plus the outstanding bare references; what is in
      the pool has neither; and the pool gave out and got back each serializer in turn. */
  ghost predicate Conserved<B, P>(w: World<B, P>) {
    && (forall b | b in w.live :: Balance(w, b) == 0 && 1 <= Get(w.count, b, 0))
    && (forall b | b in w.count && b !in w.live :: w.count[b] == 0)
    && (forall b | b in w.raw :: 0 <= w.raw[b] && (b !in w.live ==> w.raw[b] == 0))
    && (forall p | p in w.held && w.held[p].Some? :: w.held[p].value in w.live)
    && w.live !! w.pooled
    && Replay(w.log) == Some(w.live)
  }

  /** The ownership rule: a bare pointer turned into a packet, or released, must carry a reference
      of its own. */
  ghost predicate Permitted<B, P>(w: World<B, P>, op: Op<B, P>)
    requires WellTyped(w, op)
  {
    match op
    case Adopt(_, s) => s.None? || (s.value in w.live && Get(w.raw, s.value, 0) >= 1)
    case AssignRaw(_, s) => s.None? || (s.value in w.live && Get(w.raw, s.value, 0) >= 1)
    case Increment(p, n) => w.held[p].None? || Get(w.raw, w.held[p].value, 0) + n >= 0
    case Decrement(p, n) =>
      w.held[p].None? || var b := w.held[p].value;
      || Get(w.raw, b, 0) >= n
      || (|Pointing(w.held, b)| == 1 && Get(w.raw, b, 0) == n - 1)
    case Retain(s) => s in w.live
    case Release(s) => s in w.live && Get(w.raw, s, 0) >= 1
    case _ => true
  }

  // ---- counting packets ----------------------------------------------------------------------

  lemma PointingAfterSet<B, P>(held: map<P, Option<B>>, p: P, x: Option<B>, b: B)
    ensures |Pointing(held[p := x], b)|
         == |Pointing(held, b)| - (if p in held && held[p] == Some(b) then 1 else 0) + (if x == Some(b) then 1 else 0)
  {
    var s, s' := Pointing(held, b), Pointing(held[p := x], b);
    PointingElsewhere(held, p, x, b);
    assert p in s <==> p in held && held[p] == Some(b);
    assert p in s' <==> x == Some(b);
    hide Pointing;
    SizeWithout(s, p);
    SizeWithout(s', p);
  }

  lemma PointingElsewhere<B, P>(held: map<P, Option<B>>, p: P, x: Option<B>, b: B)
    ensures Pointing(held[p := x], b) - {p} == Pointing(held, b) - {p}
  {
    forall q | q != p ensures q in Pointing(held[p := x], b) <==> q in Pointing(held, b) {
    }
  }

  lemma PointingAfterRemove<B, P>(held: map<P, Option<B>>, p: P, b: B)
    requires p in held
    ensures |Pointing(held - {p}, b)| == |Pointing(held, b)| - (if held[p] == Some(b) then 1 else 0)
  {
    var s := Pointing(held, b);
    assert Pointing(held - {p}, b) == s - {p};
    SizeWithout(s, p);
  }

  lemma SizeWithout<P>(s: set<P>, p: P)
    ensures |s| == |s - {p}| + if p in s then 1 else 0
  {
    assert s == if p in s then s - {p} + {p} else s - {p};
  }

  lemma ReplayOneMore<B>(log: seq<Event<B>>, out: set<B>, b: B)
    requires Replay(log) == Some(out)
    ensures b !in out ==> Replay(log + [Alloc(b)]) == Some(out + {b})
    ensures b in out ==> Replay(log + [Free(b)]) == Some(out - {b})
  {
    assert (log + [Alloc(b)])[..|log|] == log && (log + [Free(b)])[..|log|] == log;
  }

  // ---- preservation --------------------------------------------------------------------------

  /** How many packets point at `b` after the step, from how many did before. */
  lemma PointingAfterStep<B, P>(w: World<B, P>, op: Op<B, P>, b: B)
    requires WellTyped(w, op)
    ensures var w' := Step(w, op);
            |Pointing(w'.held, b)| == |Pointing(w.held, b)|
              + (if Loses(w, op) == Some(b) then -1 else 0) + (if Gains(w, op) == Some(b) then 1 else 0)
  {
    match op
    case New(p, b0) => PointingAfterSet(w.held, p, Some(b0), b);
    case Copy(p, other) => PointingAfterSet(w.held, p, w.held[other], b);
    case Adopt(p, s) => PointingAfterSet(w.held, p, s, b);
    case Decrement(p, n) => PointingAfterSet(w.held, p, None, b);
    case AssignPacket(p, other) => PointingAfterSet(w.held, p, w.held[other], b);
    case AssignRaw(p, s) => PointingAfterSet(w.held, p, s, b);
    case Destroy(p) => PointingAfterRemove(w.held, p, b);
    case _ =>
  }

  /** The buffer a packet stops pointing at. */
  ghost function Loses<B, P>(w: World<B, P>, op: Op<B, P>): Option<B>
    requires WellTyped(w, op)
  {
    match op
    case Decrement(p, n) => if w.held[p].Some? && Get(w.count, w.held[p].value, 0) == n then w.held[p] else None
    case AssignPacket(p, _) => w.held[p]
    case AssignRaw(p, _) => w.held[p]
    case Destroy(p) => w.held[p]
    case _ => None
  }

  /** The buffer a packet starts pointing at. */
  ghost function Gains<B, P>(w: World<B, P>, op: Op<B, P>): Option<B>
    requires WellTyped(w, op)
  {
    match op
    case New(_, b) => Some(b)
    case Copy(_, other) => w.held[other]
    case Adopt(_, s) => s
    case AssignPacket(_, other) => w.held[other]
    case AssignRaw(_, s) => s
    case _ => None
  }

  lemma HolderCounts<B, P>(held: map<P, Option<B>>, p: P, b: B)
    requires p in held && held[p] == Some(b)
    ensures |Pointing(held, b)| >= 1
  {
    assert p in Pointing(held, b);
  }

  /** The conservation law: no step whatever changes the balance of any serializer. */
  lemma BalanceKept<B, P>(w: World<B, P>, op: Op<B, P>, b: B)
    requires WellTyped(w, op)
    ensures Balance(Step(w, op), b) == Balance(w, b)
  {
    if op.AssignPacket? || op.AssignRaw? {
      BalanceKeptByAssignment(w, op, b);
    } else {
      PointingAfterStep(w, op, b);
      hide Pointing;
    }
  }

  lemma BalanceKeptByAssignment<B, P>(w: World<B, P>, op: Op<B, P>, b: B)
    requires WellTyped(w, op) && (op.AssignPacket? || op.AssignRaw?)
    ensures Balance(Step(w, op), b) == Balance(w, b)
  {
    PointingAfterStep(w, op, b);
    hide Pointing;
    var w' := Step(w, op);
    var added := if op.AssignPacket? && w.held[op.other] == Some(b) then 1 else 0;
    assert Get(w'.count, b, 0) == Get(w.count, b, 0) + added - if w.held[op.p] == Some(b) then 1 else 0;
  }

  lemma BalancedEverywhere<B, P>(w: World<B, P>, b: B)
    requires Conserved(w)
    ensures Balance(w, b) == 0
  {
    if b !in w.live {
      assert Pointing(w.held, b) == {};
    }
  }

  /** Under the ownership rule the ledger never goes negative. */
  lemma LedgerStaysNonNegative<B, P>(w: World<B, P>, op: Op<B, P>, b: B)
    requires Conserved(w) && WellTyped(w, op) && Permitted(w, op)
    ensures Get(Step(w, op).raw, b, 0) >= 0
  {
    hide Replay;
    if op.Decrement? && w.held[op.p].Some? {
      BalancedEverywhere(w, w.held[op.p].value);
      HolderCounts(w.held, op.p, w.held[op.p].value);
    }
    hide Pointing;
  }

  /** A serializer is out of the pool exactly while its counter is not 0. */
  lemma LiveWhileCounted<B, P>(w: World<B, P>, op: Op<B, P>, b: B)
    requires Conserved(w) && WellTyped(w, op) && Permitted(w, op)
    ensures b in Step(w, op).live <==> Get(Step(w, op).count, b, 0) != 0
  {
    hide Replay;
    BalancedEverywhere(w, b);
    BalanceKept(w, op, b);
    LedgerStaysNonNegative(w, op, b);
    if op.AssignPacket? || op.AssignRaw? { LiveAfterAssignment(w, op, b); return; }
    if op.Increment? && w.held[op.p] == Some(b) { HolderCounts(Step(w, op).held, op.p, b); }
    hide Pointing;
  }

  lemma LiveAfterAssignment<B, P>(w: World<B, P>, op: Op<B, P>, b: B)
    requires Conserved(w) && WellTyped(w, op) && Permitted(w, op) && (op.AssignPacket? || op.AssignRaw?)
    ensures b in Step(w, op).live <==> Get(Step(w, op).count, b, 0) != 0
  {
    hide Replay, Pointing;
  }

  lemma LogAfterStep<B, P>(w: World<B, P>, op: Op<B, P>)
    requires Conserved(w) && WellTyped(w, op) && Permitted(w, op)
    ensures Replay(Step(w, op).log) == Some(Step(w, op).live) && Step(w, op).live !! Step(w, op).pooled
  {
    match op
    case New(_, b) => ReplayOneMore(w.log, w.live, b);
    case AllocRaw(b) => ReplayOneMore(w.log, w.live, b);
    case Release(b) => ReplayOneMore(w.log, w.live, b);
    case Decrement(p, _) => if w.held[p].Some? { ReplayOneMore(w.log, w.live, w.held[p].value); }
    case AssignPacket(p, _) => if w.held[p].Some? { ReplayOneMore(w.log, w.live, w.held[p].value); }
    case AssignRaw(p, _) => if w.held[p].Some? { ReplayOneMore(w.log, w.live, w.held[p].value); }
    case Destroy(p) => if w.held[p].Some? { ReplayOneMore(w.log, w.live, w.held[p].value); }
    case _ =>
  }

  lemma BooksBalance<B, P>(w: World<B, P>, op: Op<B, P>, b: B)
    requires Conserved(w) && WellTyped(w, op) && Permitted(w, op)
    ensures Balance(Step(w, op), b) == 0 && Sound(Step(w, op), b)
  {
    BalancedEverywhere(w, b);
    BalanceKept(w, op, b);
    LedgerStaysNonNegative(w, op, b);
    LiveWhileCounted(w, op, b);
  }

  /** Every permitted step keeps the books balanced and no packet on a pooled serializer. */
  lemma StepConserves<B, P>(w: World<B, P>, op: Op<B, P>)
    requires Conserved(w) && WellTyped(w, op) && Permitted(w, op)
    ensures Conserved(Step(w, op))
  {
    LogAfterStep(w, op);
    forall b ensures Balance(Step(w, op), b) == 0 && Sound(Step(w, op), b) {
      BooksBalance(w, op, b);
    }
    hide Step, Replay, Permitted, WellTyped, Balance;
    ConservedWhenSound(Step(w, op));
  }

  /** What one serializer needs for the books to be in order. */
  ghost predicate Sound<B, P>(w: World<B, P>, b: B) {
    Get(w.raw, b, 0) >= 0 && (b in w.live <==> Get(w.count, b, 0) != 0)
  }

  lemma ConservedWhenSound<B, P>(w: World<B, P>)
    requires forall b :: Balance(w, b) == 0 && Sound(w, b)
    requires w.live !! w.pooled && Replay(w.log) == Some(w.live)
    ensures Conserved(w)
  {
    hide Replay;
    forall p | p in w.held && w.held[p].Some? ensures w.held[p].value in w.live {
      assert Sound(w, w.held[p].value) && Balance(w, w.held[p].value) == 0;
      HolderCounts(w.held, p, w.held[p].value);
    }
    hide Pointing;
    forall b
      ensures b in w.live ==> 1 <= Get(w.count, b, 0)
      ensures b in w.count && b !in w.live ==> w.count[b] == 0
      ensures b in w.raw ==> 0 <= w.raw[b] && (b !in w.live ==> w.raw[b] == 0)
    {
      assert Sound(w, b) && Balance(w, b) == 0;
    }
  }

  /** The ownership rule is exactly what is needed: a step that breaks it leaves a state that no
      ledger of bare references can balance. */
  lemma ForbiddenStepBreaks<B, P>(w: World<B, P>, op: Op<B, P>, raw: map<B, int>)
    requires Conserved(w) && WellTyped(w, op) && !Permitted(w, op)
    ensures !Conserved(Step(w, op).(raw := raw))
  {
    hide Replay, Pointing;
    var w' := Step(w, op);
    var b := match op
      case Adopt(_, s) => s.value
      case AssignRaw(_, s) => s.value
      case Increment(p, _) => w.held[p].value
      case Decrement(p, _) => w.held[p].value
      case Retain(s) => s
      case Release(s) => s;
    BalancedEverywhere(w, b);
    BalanceKept(w, op, b);
    if Conserved(w'.(raw := raw)) {
      BalancedEverywhere(w'.(raw := raw), b);
    }
  }

  // ---- a serializer borrowed for a moment ----------------------------------------------------

  /** Whatever was in order still is, and no serializer more or fewer is out. */
  ghost predicate NothingKept<B, P>(w: World<B, P>, w': World<B, P>) {
    Conserved(w) ==> Conserved(w') && w'.live == w.live && w'.held == w.held
  }

  lemma BorrowedIsReturned<B, P>(w: World<B, P>, b: B)
    requires b !in w.live
    ensures NothingKept(w, Step(Step(w, AllocRaw(b)), Release(b)))
  {
    if Conserved(w) {
      NotOutIsUncounted(w, b);
      StepConserves(w, AllocRaw(b));
      BorrowSteps(w, b);
      hide Step, Conserved;
      StepConserves(Step(w, AllocRaw(b)), Release(b));
    }
  }

  lemma NotOutIsUncounted<B, P>(w: World<B, P>, b: B)
    requires Conserved(w) && b !in w.live
    ensures Get(w.count, b, 0) == 0 == Get(w.raw, b, 0)
  {
    BalancedEverywhere(w, b);
    hide Replay, Pointing;
  }

  lemma BorrowSteps<B, P>(w: World<B, P>, b: B)
    requires b !in w.live && Get(w.count, b, 0) == 0 == Get(w.raw, b, 0)
    ensures var w1 := Step(w, AllocRaw(b)); var w2 := Step(w1, Release(b));
            Permitted(w1, Release(b)) && w2.live == w.live && w2.held == w.held
  {
  }

  // ---- releasing what was sent ---------------------------------------------------------------

  function ReleaseAll<B, P>(w: World<B, P>, bs: seq<B>): World<B, P>
    decreases |bs|
  {
    if bs == [] then w else ReleaseAll(Step(w, Release(bs[0])), bs[1..])
  }

  lemma {:induction false} ReleaseOneMore<B, P>(w: World<B, P>, bs: seq<B>, b: B)
    ensures ReleaseAll(w, bs + [b]) == Step(ReleaseAll(w, bs), Release(b))
    decreases |bs|
  {
    hide Step;
    if bs == [] {
      var none: seq<B> := [];
      assert (bs + [b])[1..] == none;
    } else {
      assert (bs + [b])[1..] == bs[1..] + [b];
      ReleaseOneMore(Step(w, Release(bs[0])), bs[1..], b);
    }
  }

  /** Releases keep the books in order when each takes a bare reference of its own, and take just those. */
  lemma {:induction false} ReleaseAllConserves<B, P>(w: World<B, P>, bs: seq<B>)
    requires Conserved(w) && forall b | b in bs :: multiset(bs)[b] <= Get(w.raw, b, 0)
    ensures var w' := ReleaseAll(w, bs);
            && Conserved(w') && w'.held == w.held
            && forall b :: Get(w'.raw, b, 0) == Get(w.raw, b, 0) - multiset(bs)[b]
    decreases |bs|
  {
    if bs != [] {
      var w1, rest := Step(w, Release(bs[0])), bs[1..];
      CountWithoutFirst(bs);
      assert multiset(bs)[bs[0]] >= 1;
      OneRelease(w, bs[0]);
      hide Step, Conserved, Get;
      forall b | b in rest ensures multiset(rest)[b] <= Get(w1.raw, b, 0) {
        assert b in bs;
      }
      ReleaseAllConserves(w1, rest);
    }
  }

  lemma CountWithoutFirst<B>(bs: seq<B>)
    requires bs != []
    ensures forall b :: multiset(bs)[b] == multiset(bs[1..])[b] + if b == bs[0] then 1 else 0
  {
    assert bs == [bs[0]] + bs[1..];
  }

  lemma OneRelease<B, P>(w: World<B, P>, b: B)
    requires Conserved(w) && Get(w.raw, b, 0) >= 1
    ensures var w' := Step(w, Release(b));
            && Conserved(w') && w'.held == w.held
            && forall c :: Get(w'.raw, c, 0) == Get(w.raw, c, 0) - if c == b then 1 else 0
  {
    StepConserves(w, Release(b));
    hide Conserved;
  }

  // ---- runs ----------------------------------------------------------------------------------

  ghost predicate Obeys<B, P>(w: World<B, P>, ops: seq<Op<B, P>>)
    decreases |ops|
  {
    ops == [] || (WellTyped(w, ops[0]) && Permitted(w, ops[0]) && Obeys(Step(w, ops[0]), ops[1..]))
  }

  ghost function Final<B, P>(w: World<B, P>, ops: seq<Op<B, P>>): World<B, P>
    requires Obeys(w, ops)
    decreases |ops|
  {
    if ops == [] then w else Final(Step(w, ops[0]), ops[1..])
  }

  /** Reference conservation over every run that obeys the ownership rule. */
  lemma {:induction false} RunConserves<B, P>(w: World<B, P>, ops: seq<Op<B, P>>)
    requires Conserved(w) && Obeys(w, ops)
    ensures Conserved(Final(w, ops))
    decreases |ops|
  {
    if ops != [] {
      StepConserves(w, ops[0]);
      RunConserves(Step(w, ops[0]), ops[1..]);
    }
  }

  function Times<B(==)>(log: seq<Event<B>>, e: Event<B>): nat {
    if log == [] then 0
    else Times(log[..|log| - 1], e) + if log[|log| - 1] == e then 1 else 0
  }

  lemma {:induction false} ReplayBalances<B>(log: seq<Event<B>>, b: B)
    requires Replay(log).Some?
    ensures Times(log, Alloc(b)) == Times(log, Free(b)) + if b in Replay(log).value then 1 else 0
    decreases |log|
  {
    if log != [] {
      ReplayBalances(log[..|log| - 1], b);
    }
  }

  /** From an empty start, every serializer given out has come back once for each time it was given
      out, except the time it is out now; and when the last packet and the last bare reference are
      gone nothing is out. */
  lemma ReturnedExactlyOnce<B, P>(w: World<B, P>, ops: seq<Op<B, P>>, b: B)
    requires w.live == {} && w.log == [] && w.held == map[] && w.count == map[] && w.raw == map[] && Obeys(w, ops)
    ensures var f := Final(w, ops);
            && Times(f.log, Alloc(b)) == Times(f.log, Free(b)) + (if b in f.live then 1 else 0)
            && (b in f.live <==> |Pointing(f.held, b)| + Get(f.raw, b, 0) > 0)
  {
    RunConserves(w, ops);
    var f := Final(w, ops);
    ReplayBalances(f.log, b);
    BalancedEverywhere(f, b);
  }
}

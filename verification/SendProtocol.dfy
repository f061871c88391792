/** `sendIO` and the worker's handling of a completed send, run by any number of workers at once on one
    session: who may send, in what order packets leave, when the array handed to the system is overrun,
    and when a packet is left behind. Each access to `sendFlag` and each operation on a buffer is a step
    of its own; memory is sequentially consistent. */
module SendProtocol {

  /** Length of `WSABUF buffer[100]`. */
  const WSABUFS: nat := 100

  /** Nodes of `sendBuffer(256)` besides the one it always keeps. */
  const ROOM: nat := 255

  /** Where a worker is. `Collected`: it is about to exchange the flag. `Won`: it raised the flag and is
      about to look at `sendBuffer`. `GivingUp`: it saw nothing there and is about to lower the flag.
      `Gathering`: it saw so many packets and has those of `batch` in its array. `Holding`: it has taken a
      further one. `Settling`: it handles the completion. `Unflagged`: it lowered the flag after a
      completion and is about to look at `sendBuffer` again. */
  datatype Worker<P> =
    | Idle
    | Collected
    | Won
    | GivingUp
    | Gathering(seen: nat, batch: seq<P>)
    | Holding(seen: nat, batch: seq<P>, p: P)
    | Settling
    | Unflagged

  /** `collected`: every packet ever put into `sendBuffer`. `posted`: those handed to the system.
      `released`: those whose send is done. `overrun`: a worker wrote behind its array, and nothing more
      can be said. */
  datatype State<P> = State(sendBuffer: seq<P>, sendedBuffer: seq<P>,
                            collected: seq<P>, posted: seq<P>, released: seq<P>,
                            sendFlag: bool, inFlight: bool, overrun: bool, workers: map<nat, Worker<P>>)

  datatype Action<P> =
    | Collect(t: nat, p: P)  // collectSendPacket, when there is room; otherwise nothing changes
    | Exchange(t: nat)       // InterlockedExchange16(&sendFlag, 1)
    | Look(t: nat)           // sendBuffer.size()
    | GiveUp(t: nat)         // InterlockedExchange16(&sendFlag, 0)
    | Take(t: nat)           // sendBuffer.pop
    | Put(t: nat)            // buffer[WSAbufferCount] = ..., sendedBuffer.push
    | Post(t: nat)           // WSASend
    | Notice(t: nat)         // the completion reaches a worker
    | Settle(t: nat)         // one round of sended
    | Lower(t: nat)          // sendFlag = 0
    | LookAgain(t: nat)      // if (sendBuffer.size() > 0) sendIO()

  function At<P>(s: State<P>, t: nat): Worker<P> {
    if t in s.workers then s.workers[t] else Idle
  }

  function Goes<P>(s: State<P>, t: nat, w: Worker<P>): State<P> {
    s.(workers := s.workers[t := w])
  }

  predicate Enabled<P>(s: State<P>, a: Action<P>) {
    && !s.overrun
    && match a
       case Collect(t, _) => At(s, t).Idle? && |s.sendBuffer| < ROOM
       case Exchange(t) => At(s, t).Collected?
       case Look(t) => At(s, t).Won?
       case GiveUp(t) => At(s, t).GivingUp?
       case Take(t) => At(s, t).Gathering? && |At(s, t).batch| < At(s, t).seen && s.sendBuffer != []
       case Put(t) => At(s, t).Holding?
       case Post(t) => At(s, t).Gathering? && |At(s, t).batch| == At(s, t).seen
       case Notice(t) => At(s, t).Idle? && s.inFlight
       case Settle(t) => At(s, t).Settling? && s.sendedBuffer != []
       case Lower(t) => At(s, t).Settling? && s.sendedBuffer == []
       case LookAgain(t) => At(s, t).Unflagged?
  }

  function Step<P>(s: State<P>, a: Action<P>): State<P>
    requires Enabled(s, a)
  {
    match a
    case Collect(t, p) =>
      Goes(s, t, Collected).(sendBuffer := s.sendBuffer + [p], collected := s.collected + [p])
    case Exchange(t) => if s.sendFlag then Goes(s, t, Idle) else Goes(s, t, Won).(sendFlag := true)
    case Look(t) => Goes(s, t, if s.sendBuffer == [] then GivingUp else Gathering(|s.sendBuffer|, []))
    case GiveUp(t) => Goes(s, t, Idle).(sendFlag := false)
    case Take(t) =>
      var w := At(s, t);
      Goes(s, t, Holding(w.seen, w.batch, s.sendBuffer[0])).(sendBuffer := s.sendBuffer[1..])
    case Put(t) =>
      var w := At(s, t);
      if |w.batch| >= WSABUFS then s.(overrun := true)
      else Goes(s, t, Gathering(w.seen, w.batch + [w.p])).(sendedBuffer := s.sendedBuffer + [w.p])
    case Post(t) => Goes(s, t, Idle).(inFlight := true, posted := s.posted + At(s, t).batch)
    case Notice(t) => Goes(s, t, Settling).(inFlight := false)
    case Settle(t) => s.(sendedBuffer := s.sendedBuffer[1..], released := s.released + [s.sendedBuffer[0]])
    case Lower(t) => Goes(s, t, Unflagged).(sendFlag := false)
    case LookAgain(t) => Goes(s, t, if s.sendBuffer != [] then Collected else Idle)
  }

  ghost predicate Initial<P>(s: State<P>) {
    s == State([], [], [], [], [], false, false, false, map[])
  }

  ghost predicate Reaches<P>(s: State<P>, run: seq<Action<P>>, s': State<P>)
    decreases |run|
  {
    if run == [] then s == s'
    else Enabled(s, run[0]) && Reaches(Step(s, run[0]), run[1..], s')
  }

  // ---- the invariant -------------------------------------------------------------------------

  /** The worker holds the flag. */
  predicate Owns<P>(w: Worker<P>) {
    w.Won? || w.GivingUp? || w.Gathering? || w.Holding? || w.Settling?
  }

  /** The flag is up exactly while one worker owns it or a send is in flight, never both. */
  ghost predicate FlagIsOwned<P>(s: State<P>) {
    && (forall t, u | Owns(At(s, t)) && Owns(At(s, u)) :: t == u)
    && (s.inFlight ==> s.sendFlag && forall t :: !Owns(At(s, t)))
    && (s.sendFlag && !s.inFlight ==> exists t :: Owns(At(s, t)))
    && (forall t | Owns(At(s, t)) :: s.sendFlag)
  }

  /** Nothing is under way but what waits in `sendBuffer`. */
  ghost predicate AllReleased<P>(s: State<P>) {
    s.sendedBuffer == [] && s.posted == s.released && s.collected == s.posted + s.sendBuffer
  }

  /** What was posted and not yet released is in `sendedBuffer`. */
  ghost predicate PostedIsKept<P>(s: State<P>) {
    && s.posted == s.released + s.sendedBuffer && s.collected == s.posted + s.sendBuffer
    && |s.sendedBuffer| <= WSABUFS
  }

  /** What the buffers hold while `w` owns the flag. */
  ghost predicate Books<P>(s: State<P>, w: Worker<P>) {
    match w
    case Gathering(seen, batch) =>
      && s.sendedBuffer == batch && s.posted == s.released && s.collected == s.posted + batch + s.sendBuffer
      && |batch| <= WSABUFS && |batch| <= seen <= |batch| + |s.sendBuffer|
    case Holding(seen, batch, p) =>
      && s.sendedBuffer == batch && s.posted == s.released && s.collected == s.posted + (batch + [p]) + s.sendBuffer
      && |batch| <= WSABUFS && |batch| + 1 <= seen <= |batch| + 1 + |s.sendBuffer|
    case Settling => PostedIsKept(s)
    case _ => AllReleased(s)
  }

  ghost predicate BooksAreKept<P>(s: State<P>) {
    && (forall t | Owns(At(s, t)) :: Books(s, At(s, t)))
    && (s.inFlight ==> PostedIsKept(s))
    && (!s.sendFlag ==> AllReleased(s))
  }

  ghost predicate Inv<P>(s: State<P>) {
    && FlagIsOwned(s) && BooksAreKept(s)
    && (s.overrun ==> exists t :: At(s, t).Holding? && |At(s, t).batch| == WSABUFS)
  }

  lemma ElsewhereSame<P>(s: State<P>, a: Action<P>, u: nat)
    requires Enabled(s, a) && u != a.t
    ensures At(Step(s, a), u) == At(s, u)
  {
  }

  lemma OwnersAfter<P>(s: State<P>, a: Action<P>)
    requires Inv(s) && Enabled(s, a)
    ensures FlagIsOwned(Step(s, a))
  {
    hide BooksAreKept;
    var s' := Step(s, a);
    forall u | u != a.t ensures At(s', u) == At(s, u) {
    }
    if s'.sendFlag && !s'.inFlight && !Owns(At(s', a.t)) {
      var u :| Owns(At(s, u));
      assert Owns(At(s', u));
    }
  }

  lemma Regroup<P>(a: seq<P>, b: seq<P>, c: seq<P>, p: P)
    ensures (a + b) + [p] == a + (b + [p])
    ensures (a + b + c) + [p] == a + b + (c + [p])
    ensures a + b + ([p] + c) == a + (b + [p]) + c
    ensures a + ([p] + b) == (a + [p]) + b
  {
  }

  /** A packet more at the end changes nothing for those before it. */
  lemma CollectKeepsBooks<P>(s: State<P>, t: nat, p: P)
    requires Inv(s) && Enabled(s, Collect(t, p))
    ensures BooksAreKept(Step(s, Collect(t, p)))
  {
    var s' := Step(s, Collect(t, p));
    Regroup(s.posted, s.sendBuffer, [], p);
    forall u | Owns(At(s', u)) ensures Books(s', At(s', u)) {
      ElsewhereSame(s, Collect(t, p), u);
      var w := At(s, u);
      assert Books(s, w);
      if w.Gathering? { Regroup(s.posted, w.batch, s.sendBuffer, p); }
      if w.Holding? { Regroup(s.posted, w.batch + [w.p], s.sendBuffer, p); }
    }
  }

  /** A worker that raises the flag finds everything released, and one that takes up a completion finds
      what was posted. */
  lemma NewcomerKeepsBooks<P>(s: State<P>, a: Action<P>)
    requires Inv(s) && Enabled(s, a) && (a.Exchange? || a.Notice? || a.LookAgain?)
    ensures BooksAreKept(Step(s, a))
  {
    var s' := Step(s, a);
    forall u | Owns(At(s', u)) ensures Books(s', At(s', u)) {
      if u != a.t {
        ElsewhereSame(s, a, u);
        assert Books(s, At(s, u));
      }
    }
  }

  lemma OwnerKeepsBooks<P>(s: State<P>, a: Action<P>)
    requires Inv(s) && Enabled(s, a) && Owns(At(s, a.t))
    ensures var s' := Step(s, a);
            && (Owns(At(s', a.t)) ==> Books(s', At(s', a.t)))
            && (s'.inFlight ==> PostedIsKept(s')) && (!s'.sendFlag ==> AllReleased(s'))
  {
    var w := At(s, a.t);
    assert Books(s, w);
    match a
    case Look(_) => assert s.posted + [] == s.posted;
    case Take(_) => assert s.sendBuffer == [s.sendBuffer[0]] + s.sendBuffer[1..];
                    Regroup(s.posted, w.batch, s.sendBuffer[1..], s.sendBuffer[0]);
    case Settle(_) => assert s.sendedBuffer == [s.sendedBuffer[0]] + s.sendedBuffer[1..];
                      Regroup(s.released, s.sendedBuffer[1..], [], s.sendedBuffer[0]);
    case _ =>
  }

  lemma BooksAfter<P>(s: State<P>, a: Action<P>)
    requires Inv(s) && Enabled(s, a)
    ensures BooksAreKept(Step(s, a))
  {
    match a
    case Collect(t, p) => CollectKeepsBooks(s, t, p);
    case Exchange(_) => NewcomerKeepsBooks(s, a);
    case Notice(_) => NewcomerKeepsBooks(s, a);
    case LookAgain(_) => NewcomerKeepsBooks(s, a);
    case _ =>
      assert Owns(At(s, a.t));
      OwnerKeepsBooks(s, a);
      hide Books, PostedIsKept, AllReleased;
      forall u | Owns(At(Step(s, a), u)) ensures u == a.t {
        if u != a.t { ElsewhereSame(s, a, u); }
      }
  }

  lemma StepKeepsInv<P>(s: State<P>, a: Action<P>)
    requires Inv(s) && Enabled(s, a)
    ensures Inv(Step(s, a))
  {
    OwnersAfter(s, a);
    BooksAfter(s, a);
    hide FlagIsOwned;
    var s' := Step(s, a);
    if s'.overrun {
      assert Books(s, At(s, a.t)) by { assert Owns(At(s, a.t)); }
      hide BooksAreKept;
      assert At(s', a.t).Holding? && |At(s', a.t).batch| == WSABUFS;
    }
  }

  lemma {:induction false} RunKeepsInv<P>(s: State<P>, run: seq<Action<P>>, s': State<P>)
    requires Inv(s) && Reaches(s, run, s')
    ensures Inv(s')
    decreases |run|
  {
    if run != [] {
      StepKeepsInv(s, run[0]);
      RunKeepsInv(Step(s, run[0]), run[1..], s');
    }
  }

  lemma ReachableInv<P>(s: State<P>, run: seq<Action<P>>, s': State<P>)
    requires Initial(s) && Reaches(s, run, s')
    ensures Inv(s')
  {
    assert Inv(s);
    RunKeepsInv(s, run, s');
  }

  // ---- main results --------------------------------------------------------------------------

  /** At every moment at most one worker works on a send or its completion, and none while one is in
      flight; so `sendedBuffer` never has two writers or two readers. */
  lemma OneSender<P>(s: State<P>, run: seq<Action<P>>, s': State<P>)
    requires Initial(s) && Reaches(s, run, s')
    ensures forall t, u | Owns(At(s', t)) && Owns(At(s', u)) :: t == u
    ensures s'.inFlight ==> forall t :: !Owns(At(s', t))
    ensures s'.sendFlag <==> s'.inFlight || exists t :: Owns(At(s', t))
  {
    ReachableInv(s, run, s');
    hide BooksAreKept;
  }

  /** Packets are handed to the system in the order they were collected, each once, and released in that
      order: at every moment the released are the first of the posted, and the posted the first of the
      collected. While a send is in flight, `sendedBuffer` holds the posted ones it has to release, never
      more than the ring has room for; while the flag is down, none is missing. */
  lemma SentInOrder<P>(s: State<P>, run: seq<Action<P>>, s': State<P>)
    requires Initial(s) && Reaches(s, run, s')
    ensures s'.released <= s'.posted <= s'.collected
    ensures s'.inFlight ==> s'.posted == s'.released + s'.sendedBuffer && s'.collected == s'.posted + s'.sendBuffer
    ensures !s'.sendFlag ==> s'.posted == s'.released && s'.collected == s'.posted + s'.sendBuffer
    ensures |s'.sendedBuffer| <= 100
  {
    ReachableInv(s, run, s');
    if s'.sendFlag && !s'.inFlight {
      var t :| Owns(At(s', t));
      assert Books(s', At(s', t));
    }
  }

  // ---- the array handed to the system --------------------------------------------------------

  predicate Gathers<P>(w: Worker<P>, n: nat) {
    (w.Gathering? || w.Holding?) && w.seen == n
  }

  /** Nobody else posts meanwhile, and what was collected stays. */
  lemma GathererGoesOn<P>(s: State<P>, a: Action<P>, t: nat, n: nat)
    requires Inv(s) && Enabled(s, a) && Gathers(At(s, t), n) && a != Post(t)
    ensures var s' := Step(s, a); Gathers(At(s', t), n) && s'.posted == s.posted && s.collected <= s'.collected
  {
    assert Owns(At(s, t));
    if a.t != t {
      ElsewhereSame(s, a, t);
      assert !Owns(At(s, a.t));
    }
  }

  lemma {:induction false} RunGathersOn<P>(s: State<P>, run: seq<Action<P>>, s': State<P>, t: nat, n: nat)
    requires Inv(s) && Reaches(s, run, s') && Gathers(At(s, t), n) && Post(t) !in run
    ensures Inv(s') && Gathers(At(s', t), n) && s'.posted == s.posted && s.collected <= s'.collected
    decreases |run|
  {
    hide Step, Enabled, At, Inv;
    if run != [] {
      GathererGoesOn(s, run[0], t, n);
      StepKeepsInv(s, run[0]);
      RunGathersOn(Step(s, run[0]), run[1..], s', t, n);
    }
  }

  /** Whatever the others do meanwhile: a worker that saw at most 100 packets comes to its `WSASend`,
      with just these packets, and never overruns its array; and one that saw more overruns it and never
      comes there. */
  lemma OverrunsExactlyWhen<P>(s: State<P>, before: seq<Action<P>>, s1: State<P>, t: nat,
                               run: seq<Action<P>>, s2: State<P>)
    requires Initial(s) && Reaches(s, before, s1) && Enabled(s1, Look(t)) && s1.sendBuffer != []
    requires Reaches(Step(s1, Look(t)), run, s2) && Post(t) !in run
    ensures |s1.sendBuffer| <= 100 ==> !s2.overrun
    ensures |s1.sendBuffer| > 100 ==> !Enabled(s2, Post(t))
    ensures Enabled(s2, Post(t)) ==> At(s2, t).batch == s1.sendBuffer
    ensures exists rest, s3 ::
              Reaches(s2, rest, s3) && if |s1.sendBuffer| > 100 then s3.overrun else Enabled(s3, Post(t))
  {
    var n := |s1.sendBuffer|;
    ReachableInv(s, before, s1);
    StepKeepsInv(s1, Look(t));
    RunGathersOn(Step(s1, Look(t)), run, s2, t, n);
    OverrunsOrPosts(s2, t, n);
    if Enabled(s2, Post(t)) { BatchIsWhatWasSeen(s1, s2, t); }
    hide Inv, Step;
    if s2.overrun {
      var none: seq<Action<P>> := [];
      assert Reaches(s2, none, s2);
    } else {
      var rest, s3 := GatheringEnds(s2, t, n);
    }
  }

  lemma BatchIsWhatWasSeen<P>(s1: State<P>, s2: State<P>, t: nat)
    requires Inv(s1) && At(s1, t).Won? && Inv(s2) && At(s2, t).Gathering?
    requires |At(s2, t).batch| == |s1.sendBuffer|
    requires s2.posted == s1.posted && s1.collected <= s2.collected
    ensures At(s2, t).batch == s1.sendBuffer
  {
    assert Owns(At(s1, t)) && Books(s1, At(s1, t)) && Owns(At(s2, t)) && Books(s2, At(s2, t));
    var k, n := |s1.posted|, |s1.sendBuffer|;
    assert s1.collected[k..k + n] == s1.sendBuffer;
    assert s2.collected[k..k + n] == At(s2, t).batch;
  }

  lemma OverrunsOrPosts<P>(s: State<P>, t: nat, n: nat)
    requires Inv(s) && Gathers(At(s, t), n)
    ensures s.overrun ==> n > WSABUFS
    ensures Enabled(s, Post(t)) ==> n <= WSABUFS
  {
    assert Owns(At(s, t)) && Books(s, At(s, t));
    if s.overrun {
      var u :| At(s, u).Holding? && |At(s, u).batch| == WSABUFS;
      assert Owns(At(s, u));
      assert u == t;
    }
  }

  /** The worker's own steps bring it to the end of its loop. */
  lemma {:induction false} GatheringEnds<P>(s: State<P>, t: nat, n: nat) returns (run: seq<Action<P>>, s': State<P>)
    requires Inv(s) && !s.overrun && Gathers(At(s, t), n)
    ensures Reaches(s, run, s') && if n > WSABUFS then s'.overrun else Enabled(s', Post(t))
    decreases n - |At(s, t).batch|, At(s, t).Gathering?
  {
    assert Owns(At(s, t)) && Books(s, At(s, t));
    var w := At(s, t);
    var a := if w.Holding? then Put(t) else if |w.batch| < n then Take(t) else Post(t);
    assert Enabled(s, a);
    if a.Post? {
      run, s' := [], s;
    } else if Step(s, a).overrun {
      run, s' := [a], Step(s, a);
      assert run[1..] == [];
    } else {
      StepKeepsInv(s, a);
      hide Inv;
      var more;
      more, s' := GatheringEnds(Step(s, a), t, n);
      run := [a] + more;
      assert run[1..] == more;
    }
  }

  /** Every worker that looks finds at most as many packets as its array takes. */
  ghost predicate LooksAtFew<P>(s: State<P>, run: seq<Action<P>>)
    decreases |run|
  {
    run == [] ||
    (Enabled(s, run[0]) && (run[0].Look? ==> |s.sendBuffer| <= 100) && LooksAtFew(Step(s, run[0]), run[1..]))
  }

  lemma NoOverrun<P>(s: State<P>, run: seq<Action<P>>, s': State<P>)
    requires Initial(s) && Reaches(s, run, s') && LooksAtFew(s, run)
    ensures !s'.overrun
  {
    FewAreGathered(s, run, s');
  }

  lemma FewDoNotOverrun<P>(s: State<P>)
    requires Inv(s) && forall t: nat, n: nat | Gathers(At(s, t), n) :: n <= WSABUFS
    ensures !s.overrun
  {
    forall u | At(s, u).Holding? ensures |At(s, u).batch| < WSABUFS {
      assert Gathers(At(s, u), At(s, u).seen);
      assert Owns(At(s, u)) && Books(s, At(s, u));
    }
  }

  lemma {:induction false} FewAreGathered<P>(s: State<P>, run: seq<Action<P>>, s': State<P>)
    requires Inv(s) && !s.overrun && Reaches(s, run, s') && LooksAtFew(s, run)
    requires forall t: nat, n: nat | Gathers(At(s, t), n) :: n <= WSABUFS
    ensures !s'.overrun
    decreases |run|
  {
    if run != [] {
      var s1 := Step(s, run[0]);
      StepKeepsInv(s, run[0]);
      forall t: nat, n: nat | Gathers(At(s1, t), n) ensures n <= WSABUFS {
        if t != run[0].t { ElsewhereSame(s, run[0], t); }
        else if !run[0].Look? { assert Gathers(At(s, t), n); }
      }
      FewDoNotOverrun(s1);
      hide Inv, Step;
      FewAreGathered(s1, run[1..], s');
    }
  }

  // ---- packets left behind -------------------------------------------------------------------

  /** A packet waits, and no worker and no send in flight will ever come back for it. */
  ghost predicate Stranded<P>(s: State<P>) {
    s.sendBuffer != [] && !s.inFlight && forall t :: At(s, t).Idle?
  }

  /** Exactly one step leaves packets behind: a worker that saw an empty `sendBuffer` lowers the flag
      after another has put a packet there, been turned away by the flag, and gone. */
  lemma StrandedExactlyWhen<P>(s: State<P>, run: seq<Action<P>>, s': State<P>, a: Action<P>)
    requires Initial(s) && Reaches(s, run, s') && Enabled(s', a) && !Stranded(s')
    ensures Stranded(Step(s', a)) <==>
              a.GiveUp? && s'.sendBuffer != [] && forall u | u != a.t :: At(s', u).Idle?
  {
    hide Step, Inv, At, Stranded, Reaches, Enabled, Initial;
    ReachableInv(s, run, s');
    if a.GiveUp? {
      GivingUpStrands(s', a.t);
    } else {
      OthersDoNotStrand(s', a);
    }
  }

  lemma GivingUpStrands<P>(s: State<P>, t: nat)
    requires Inv(s) && Enabled(s, GiveUp(t))
    ensures Stranded(Step(s, GiveUp(t))) <==> s.sendBuffer != [] && forall u | u != t :: At(s, u).Idle?
  {
    assert Owns(At(s, t));
    assert At(Step(s, GiveUp(t)), t).Idle?;
    forall u | u != t ensures At(Step(s, GiveUp(t)), u) == At(s, u) {
    }
  }

  /** Whoever is turned away leaves a worker or a send in flight behind; everyone else goes on, has
      posted a send, or found nothing. */
  lemma OthersDoNotStrand<P>(s: State<P>, a: Action<P>)
    requires Inv(s) && Enabled(s, a) && !a.GiveUp?
    ensures !Stranded(Step(s, a))
  {
    var s' := Step(s, a);
    if a.Exchange? && s.sendFlag && !s.inFlight {
      var u :| Owns(At(s, u));
      ElsewhereSame(s, a, u);
      assert !At(s', u).Idle?;
    } else {
      assert s'.inFlight || s'.sendBuffer == [] || !At(s', a.t).Idle?;
    }
  }

  /** The step of a worker giving up finds `sendBuffer` as empty as it saw it. */
  ghost predicate GivesUpRightly<P>(s: State<P>, run: seq<Action<P>>)
    decreases |run|
  {
    run == [] ||
    (Enabled(s, run[0]) && (run[0].GiveUp? ==> s.sendBuffer == []) && GivesUpRightly(Step(s, run[0]), run[1..]))
  }

  /** A run in which no packet slips in between a look and the giving up never leaves one behind. */
  lemma {:induction false} NothingLeftBehind<P>(s: State<P>, before: seq<Action<P>>, s': State<P>,
                                                run: seq<Action<P>>, s'': State<P>)
    requires Initial(s) && Reaches(s, before, s') && !Stranded(s')
    requires GivesUpRightly(s', run) && Reaches(s', run, s'')
    ensures !Stranded(s'')
    decreases |run|
  {
    if run != [] {
      StrandedExactlyWhen(s, before, s', run[0]);
      ReachesOneMore(s, before, s', run[0]);
      NothingLeftBehind(s, before + [run[0]], Step(s', run[0]), run[1..], s'');
    }
  }

  lemma {:induction false} ReachesOneMore<P>(s: State<P>, run: seq<Action<P>>, s': State<P>, a: Action<P>)
    requires Reaches(s, run, s') && Enabled(s', a)
    ensures Reaches(s, run + [a], Step(s', a))
    decreases |run|
  {
    if run == [] {
      assert [a][1..] == [];
    } else {
      assert (run + [a])[1..] == run[1..] + [a];
      ReachesOneMore(Step(s, run[0]), run[1..], s', a);
    }
  }

  lemma {:induction false} LastStep<P>(s: State<P>, run: seq<Action<P>>, s': State<P>) returns (s1: State<P>)
    requires Reaches(s, run, s') && run != []
    ensures var last := run[|run| - 1];
            Reaches(s, run[..|run| - 1], s1) && Enabled(s1, last) && s' == Step(s1, last)
    decreases |run|
  {
    if |run| == 1 {
      s1 := s;
      assert run[1..] == [] && run[..0] == [];
    } else {
      s1 := LastStep(Step(s, run[0]), run[1..], s');
      assert run[1..][..|run| - 2] == run[..|run| - 1][1..];
    }
  }

  /** A whole run ends with a packet left behind exactly when its last step is that one. */
  lemma RunStrandsExactlyWhen<P>(s: State<P>, run: seq<Action<P>>, s': State<P>)
    requires Initial(s) && Reaches(s, run, s')
    ensures Stranded(s') <==>
              && run != [] && run[|run| - 1].GiveUp?
              && s'.sendBuffer != [] && forall t :: At(s', t).Idle?
  {
    ReachableInv(s, run, s');
    if run != [] {
      var s1 := LastStep(s, run, s');
      ReachableInv(s, run[..|run| - 1], s1);
      var a := run[|run| - 1];
      if Stranded(s1) {
        StrandedGoesNowhere(s1, a);
      } else {
        StrandedExactlyWhen(s, run[..|run| - 1], s1, a);
      }
      if a.GiveUp? { assert Owns(At(s1, a.t)); }
    }
  }

  lemma StrandedGoesNowhere<P>(s: State<P>, a: Action<P>)
    requires Stranded(s) && Enabled(s, a)
    ensures a.Collect? && !Stranded(Step(s, a))
  {
    assert At(s, a.t).Idle?;
    assert !At(Step(s, a), a.t).Idle?;
  }

  /** What was left behind goes out with the next packet: its worker wins the flag and sees it all. But
      when `sendBuffer` is full no packet can be collected, and nothing ever happens again. */
  lemma StrandedUntilNextPacket<P>(s: State<P>, run: seq<Action<P>>, s': State<P>, t: nat, p: P)
    requires Initial(s) && Reaches(s, run, s') && Stranded(s')
    ensures |s'.sendBuffer| < 255 ==> exists s'' ::
              && Reaches(s', [Collect(t, p), Exchange(t), Look(t)], s'')
              && s''.sendBuffer == s'.sendBuffer + [p] && At(s'', t) == Gathering(|s''.sendBuffer|, [])
    ensures |s'.sendBuffer| >= 255 ==> forall a :: !Enabled(s', a)
  {
    ReachableInv(s, run, s');
    assert !s'.sendFlag && !s'.overrun;
    hide Inv, Reaches;
    if |s'.sendBuffer| < ROOM {
      NextTakesItAlong(s', t, p);
    } else {
      hide Step;
      forall a ensures !Enabled(s', a) {
        assert At(s', a.t).Idle?;
      }
    }
  }

  lemma NextTakesItAlong<P>(s: State<P>, t: nat, p: P)
    requires At(s, t).Idle? && |s.sendBuffer| < ROOM && !s.sendFlag && !s.overrun
    ensures exists s' ::
              && Reaches(s, [Collect(t, p), Exchange(t), Look(t)], s')
              && s'.sendBuffer == s.sendBuffer + [p] && At(s', t) == Gathering(|s'.sendBuffer|, [])
  {
    hide Reaches;
    var s1 := Step(s, Collect(t, p));
    var s2 := Step(s1, Exchange(t));
    var s3 := Step(s2, Look(t));
    ReachesThree(s, Collect(t, p), Exchange(t), Look(t));
  }

  lemma ReachesThree<P>(s: State<P>, a: Action<P>, b: Action<P>, c: Action<P>)
    requires Enabled(s, a) && Enabled(Step(s, a), b) && Enabled(Step(Step(s, a), b), c)
    ensures Reaches(s, [a, b, c], Step(Step(Step(s, a), b), c))
  {
    hide Step, Enabled;
    var none: seq<Action<P>> := [];
    var s1, s2 := Step(s, a), Step(Step(s, a), b);
    assert [a, b, c][1..] == [b, c] && [b, c][1..] == [c] && [c][1..] == none;
    assert Reaches(s2, [c], Step(s2, c));
    assert Reaches(s1, [b, c], Step(s2, c));
  }

  // ---- examples ------------------------------------------------------------------------------

  /** What two workers' states and the shared fields are; the history does not matter. */
  ghost predicate Shows<P>(s: State<P>, sendBuffer: seq<P>, sendedBuffer: seq<P>, sendFlag: bool, inFlight: bool,
                           w0: Worker<P>, w1: Worker<P>)
  {
    && s.sendBuffer == sendBuffer && s.sendedBuffer == sendedBuffer
    && s.sendFlag == sendFlag && s.inFlight == inFlight && !s.overrun
    && At(s, 0) == w0 && At(s, 1) == w1 && forall t | t > 1 :: At(s, t) == Idle
  }

  lemma TwoSteps<P>(s: State<P>, run: seq<Action<P>>, s': State<P>, a: Action<P>, b: Action<P>)
    returns (run': seq<Action<P>>, s'': State<P>)
    requires Reaches(s, run, s') && Enabled(s', a) && Enabled(Step(s', a), b)
    ensures Reaches(s, run', s'') && s'' == Step(Step(s', a), b)
    ensures forall t | t != a.t && t != b.t :: At(s'', t) == At(s', t)
  {
    hide Reaches, Step, Enabled, At;
    ReachesOneMore(s, run, s', a);
    ReachesOneMore(s, run + [a], Step(s', a), b);
    run', s'' := run + [a] + [b], Step(Step(s', a), b);
    forall t | t != a.t && t != b.t ensures At(s'', t) == At(s', t) {
      ElsewhereSame(s', a, t);
      ElsewhereSame(Step(s', a), b, t);
    }
  }

  function Copies<P>(p: P, n: nat): (ps: seq<P>)
    ensures |ps| == n
  {
    if n == 0 then [] else [p] + Copies(p, n - 1)
  }

  /** While the flag is up, packets pile up: each worker that brings one is turned away. */
  lemma {:induction false} PilesUp<P>(s: State<P>, before: seq<Action<P>>, s1: State<P>, t: nat, p: P, n: nat)
    returns (run: seq<Action<P>>, s': State<P>)
    requires Reaches(s, before, s1) && s1.sendFlag && !s1.overrun && At(s1, t).Idle? && |s1.sendBuffer| + n <= ROOM
    ensures Reaches(s, run, s') && s'.sendBuffer == s1.sendBuffer + Copies(p, n)
    ensures s'.sendedBuffer == s1.sendedBuffer && s'.sendFlag && s'.inFlight == s1.inFlight && !s'.overrun
    ensures forall u :: At(s', u) == At(s1, u)
    decreases n
  {
    hide Reaches;
    run, s' := before, s1;
    if n > 0 {
      run, s' := TwoSteps(s, before, s1, Collect(t, p), Exchange(t));
      assert forall u :: At(s', u) == At(s1, u);
      var s2 := s';
      run, s' := PilesUp(s, run, s', t, p, n - 1);
      hide Step, Enabled;
      assert (s1.sendBuffer + [p]) + Copies(p, n - 1) == s1.sendBuffer + Copies(p, n);
    } else {
      assert s1.sendBuffer + [] == s1.sendBuffer;
    }
  }

  /** Worker 0 has its packet in hand, and then on its way. */
  lemma FirstTaken<P>(s: State<P>, p: P) returns (run: seq<Action<P>>, s': State<P>)
    requires Initial(s)
    ensures Reaches(s, run, s') && Shows(s', [], [], true, false, Holding(1, [], p), Idle)
  {
    run, s' := FirstWins(s, p);
    hide Reaches;
    run, s' := TwoSteps(s, run, s', Look(0), Take(0));
  }

  lemma FirstWins<P>(s: State<P>, p: P) returns (run: seq<Action<P>>, s': State<P>)
    requires Initial(s)
    ensures Reaches(s, run, s') && Shows(s', [p], [], true, false, Won, Idle)
  {
    assert Reaches(s, [], s);
    hide Reaches;
    run, s' := TwoSteps(s, [], s, Collect(0, p), Exchange(0));
  }

  lemma FirstPosted<P>(s: State<P>, p: P) returns (run: seq<Action<P>>, s': State<P>)
    requires Initial(s)
    ensures Reaches(s, run, s') && Shows(s', [], [p], true, true, Idle, Idle)
  {
    hide Reaches;
    run, s' := FirstTaken(s, p);
    run, s' := TwoSteps(s, run, s', Put(0), Post(0));
  }

  /** While it is, 101 more are brought; then it completes, and worker 0 sends what waits. */
  lemma OverrunExample<P>(s: State<P>, p: P)
    requires Initial(s)
    ensures exists run, s' :: Reaches(s, run, s') && s'.overrun
  {
    hide Reaches;
    var run, s' := FirstPosted(s, p);
    var many := Copies(p, WSABUFS + 1);
    run, s' := PilesUp(s, run, s', 1, p, WSABUFS + 1);
    assert [] + many == many;
    assert Shows(s', many, [p], true, true, Idle, Idle);
    run, s' := FirstReleased(s, run, s', p, many);
    run, s' := TwoSteps(s, run, s', Exchange(0), Look(0));
    assert Gathers(At(s', 0), WSABUFS + 1) && !s'.overrun;
    hide Step, Enabled, Inv, Gathers, At, Shows;
    ReachableInv(s, run, s');
    var more, last := GatheringEnds(s', 0, WSABUFS + 1);
    ReachesFurther(s, run, s', more, last);
  }

  lemma FirstReleased<P>(s: State<P>, before: seq<Action<P>>, s1: State<P>, p: P, waiting: seq<P>)
    returns (run: seq<Action<P>>, s': State<P>)
    requires Reaches(s, before, s1) && Shows(s1, waiting, [p], true, true, Idle, Idle) && waiting != []
    ensures Reaches(s, run, s') && Shows(s', waiting, [], false, false, Collected, Idle)
  {
    hide Reaches;
    run, s' := TwoSteps(s, before, s1, Notice(0), Settle(0));
    assert Shows(s', waiting, [], true, false, Settling, Idle);
    run, s' := TwoSteps(s, run, s', Lower(0), LookAgain(0));
  }

  lemma {:induction false} ReachesFurther<P>(s: State<P>, run: seq<Action<P>>, s': State<P>,
                                             more: seq<Action<P>>, s'': State<P>)
    requires Reaches(s, run, s') && Reaches(s', more, s'')
    ensures Reaches(s, run + more, s'')
    decreases |run|
  {
    hide Step, Enabled;
    if run == [] {
      assert run + more == more;
    } else {
      assert (run + more)[1..] == run[1..] + more;
      ReachesFurther(Step(s, run[0]), run[1..], s', more, s'');
    }
  }

  /** Two workers are enough: worker 0 sends what both brought, and comes back with more while worker 1 is
      giving up. What it brings stays behind, up to a full `sendBuffer`. */
  lemma StrandedExample<P>(s: State<P>, p: P, n: nat)
    requires Initial(s) && 1 <= n <= 255
    ensures exists run, s' :: Reaches(s, run, s') && Stranded(s') && s'.sendBuffer == Copies(p, n)
  {
    var run, s' := BothCollected(s, p);
    run, s' := BothGathered(s, run, s', p);
    run, s' := BothPosted(s, run, s', p);
    run, s' := BothReleased(s, run, s', p);
    run, s' := LeftBehind(s, run, s', p, n);
  }

  lemma BothCollected<P>(s: State<P>, p: P) returns (run: seq<Action<P>>, s': State<P>)
    requires Initial(s)
    ensures Reaches(s, run, s') && Shows(s', [p, p], [], false, false, Collected, Collected)
  {
    assert Reaches(s, [], s);
    hide Reaches;
    run, s' := TwoSteps(s, [], s, Collect(0, p), Collect(1, p));
  }

  /** Worker 0 has the first packet in its array; worker 1 still means to send. */
  lemma BothGathered<P>(s: State<P>, before: seq<Action<P>>, s1: State<P>, p: P)
    returns (run: seq<Action<P>>, s': State<P>)
    requires Reaches(s, before, s1) && Shows(s1, [p, p], [], false, false, Collected, Collected)
    ensures Reaches(s, run, s') && Shows(s', [p], [p], true, false, Gathering(2, [p]), Collected)
  {
    hide Reaches;
    run, s' := TwoSteps(s, before, s1, Exchange(0), Look(0));
    assert Shows(s', [p, p], [], true, false, Gathering(2, []), Collected);
    run, s' := TwoSteps(s, run, s', Take(0), Put(0));
  }

  lemma BothPosted<P>(s: State<P>, before: seq<Action<P>>, s1: State<P>, p: P)
    returns (run: seq<Action<P>>, s': State<P>)
    requires Reaches(s, before, s1) && Shows(s1, [p], [p], true, false, Gathering(2, [p]), Collected)
    ensures Reaches(s, run, s') && Shows(s', [], [p, p], true, false, Settling, Collected)
  {
    hide Reaches;
    run, s' := TwoSteps(s, before, s1, Take(0), Put(0));
    assert Shows(s', [], [p, p], true, false, Gathering(2, [p, p]), Collected);
    run, s' := TwoSteps(s, run, s', Post(0), Notice(0));
  }

  lemma BothReleased<P>(s: State<P>, before: seq<Action<P>>, s1: State<P>, p: P)
    returns (run: seq<Action<P>>, s': State<P>)
    requires Reaches(s, before, s1) && Shows(s1, [], [p, p], true, false, Settling, Collected)
    ensures Reaches(s, run, s') && Shows(s', [], [], true, false, Idle, GivingUp)
  {
    hide Reaches;
    assert [p, p][1..] == [p];
    run, s' := TwoSteps(s, before, s1, Settle(0), Settle(0));
    assert Shows(s', [], [], true, false, Settling, Collected);
    run, s' := TwoSteps(s, run, s', Lower(0), LookAgain(0));
    assert Shows(s', [], [], false, false, Idle, Collected);
    run, s' := TwoSteps(s, run, s', Exchange(1), Look(1));
  }

  lemma LeftBehind<P>(s: State<P>, before: seq<Action<P>>, s1: State<P>, p: P, n: nat)
    returns (run: seq<Action<P>>, s': State<P>)
    requires Reaches(s, before, s1) && Shows(s1, [], [], true, false, Idle, GivingUp) && 1 <= n <= ROOM
    ensures Reaches(s, run, s') && Stranded(s') && s'.sendBuffer == Copies(p, n)
  {
    hide Reaches;
    run, s' := PilesUp(s, before, s1, 0, p, n);
    assert [] + Copies(p, n) == Copies(p, n);
    ReachesOneMore(s, run, s', GiveUp(1));
    var last := Step(s', GiveUp(1));
    forall t ensures At(last, t) == Idle {
      if t > 1 { assert At(s', t) == Idle; }
    }
    run, s' := run + [GiveUp(1)], last;
  }

  /** The order comes from the flag alone: two workers gathering at once can post the second packet first. */
  lemma OrderNeedsOneSender<P>(s: State<P>, p: P, q: P)
    requires Shows(s, [p, q], [], true, false, Gathering(1, []), Gathering(1, []))
    requires s.collected == [p, q] && s.posted == []
    ensures exists run, s' :: Reaches(s, run, s') && s'.collected == [p, q] && s'.posted == [q, p]
  {
    var before, s1 := SecondPosted(s, p, q);
    var run, s' := ThenFirstPosted(s, before, s1, p, q);
  }

  lemma ThenFirstPosted<P>(s: State<P>, before: seq<Action<P>>, s1: State<P>, p: P, q: P)
    returns (run: seq<Action<P>>, s': State<P>)
    requires Reaches(s, before, s1) && At(s1, 0) == Holding(1, [], p) && !s1.overrun && s1.posted == [q]
    ensures Reaches(s, run, s') && s'.collected == s1.collected && s'.posted == [q, p]
  {
    hide Reaches;
    run, s' := TwoSteps(s, before, s1, Put(0), Post(0));
    assert [q] + ([] + [p]) == [q, p];
  }

  lemma SecondPosted<P>(s: State<P>, p: P, q: P) returns (run: seq<Action<P>>, s': State<P>)
    requires Shows(s, [p, q], [], true, false, Gathering(1, []), Gathering(1, []))
    requires s.collected == [p, q] && s.posted == []
    ensures Reaches(s, run, s') && s'.collected == [p, q] && s'.posted == [q]
    ensures At(s', 0) == Holding(1, [], p) && !s'.overrun
  {
    assert Reaches(s, [], s);
    hide Reaches;
    assert [p, q][1..] == [q];
    run, s' := TwoSteps(s, [], s, Take(0), Take(1));
    run, s' := TwoSteps(s, run, s', Put(1), Post(1));
    assert [] + ([] + [q]) == [q];
  }
}

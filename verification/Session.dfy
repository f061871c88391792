/** The receiving side of a connection: `session::recvIO`, `session::recved` and `session::recvedPacket`
    over the receive ring, and the worker loop that takes complete packets out of it. */
module Sessions {
  import opened Bits
  import opened Options
  import opened Codec
  import opened Memory
  import opened Ring
  import opened RingBuffers
  import opened SerializerModel
  import opened Serializers
  import opened Packets
  import opened Wire
  import PM = PacketModel

  // ---- framing on values ---------------------------------------------------------------------

  /** `recvedPacket`: the first frame and what follows it. A negative total is an enormous `size_t`,
      so it is never there. */
  function Extract(q: seq<byte>): (r: Option<(seq<byte>, seq<byte>)>)
    ensures r.Some? ==> q == r.value.0 + r.value.1
  {
    if |q| < HEADER_SIZE then None
    else
      var need := HEADER_SIZE + SizeField(q);
      if need < 0 || |q| < need then None else Some((q[..need], q[need..]))
  }

  /** The worker loop: frames until none is complete. A frame of no bytes would be found for ever. */
  function Drain(q: seq<byte>): (r: (seq<seq<byte>>, seq<byte>))
    decreases |q|
  {
    match Extract(q)
    case None => ([], q)
    case Some((f, rest)) =>
      if f == [] then ([], q)
      else
        var (fs, left) := Drain(rest);
        ([f] + fs, left)
  }

  /** The next extraction would succeed without taking a byte. */
  predicate Spins(q: seq<byte>) {
    Extract(q).Some? && Extract(q).value.0 == []
  }

  /** `Refused`: `recved` returned false, the worker went on without posting another receive, and no
      byte comes in any more. `Spinning`: the worker never leaves its loop. */
  datatype Status = Receiving | Refused | Spinning

  datatype Receiver = Receiver(queue: seq<byte>, frames: seq<seq<byte>>, status: Status)

  /** `recved` turns down an empty transfer and one that would fill the ring. */
  predicate Accepts(bufferSize: nat, queue: seq<byte>, chunk: seq<byte>) {
    0 < |chunk| < bufferSize - 1 - |queue|
  }

  /** One completed receive on a ring of `bufferSize`. */
  function Receive(bufferSize: nat, r: Receiver, chunk: seq<byte>): Receiver {
    if r.status != Receiving then r
    else if !Accepts(bufferSize, r.queue, chunk) then r.(status := Refused)
    else
      var (fs, left) := Drain(r.queue + chunk);
      Receiver(left, r.frames + fs, if Spins(left) then Spinning else Receiving)
  }

  function ReceiveRun(bufferSize: nat, r: Receiver, chunks: seq<seq<byte>>): Receiver
    decreases |chunks|
  {
    if chunks == [] then r else ReceiveRun(bufferSize, Receive(bufferSize, r, chunks[0]), chunks[1..])
  }

  /** How many transfers of a run are taken in. */
  function TakenIn(bufferSize: nat, r: Receiver, chunks: seq<seq<byte>>): (k: nat)
    ensures k <= |chunks|
    decreases |chunks|
  {
    if chunks == [] || r.status != Receiving || !Accepts(bufferSize, r.queue, chunks[0]) then 0
    else 1 + TakenIn(bufferSize, Receive(bufferSize, r, chunks[0]), chunks[1..])
  }

  const Start := Receiver([], [], Receiving)

  function Concat(chunks: seq<seq<byte>>): seq<byte> {
    if chunks == [] then [] else chunks[0] + Concat(chunks[1..])
  }

  lemma ConcatOfOne(chunk: seq<byte>)
    ensures Concat([chunk]) == chunk
  {
    var none: seq<seq<byte>> := [];
    assert [chunk][1..] == none && Concat(none) == [];
    assert chunk + [] == chunk;
  }

  lemma ExtractExtends(a: seq<byte>, b: seq<byte>)
    requires Extract(a).Some?
    ensures Extract(a + b) == Some((Extract(a).value.0, Extract(a).value.1 + b))
  {
    hide IntFrom;
    assert (a + b)[1..3] == a[1..3];
    var need := HEADER_SIZE + SizeField(a);
    assert (a + b)[..need] == a[..need] && (a + b)[need..] == a[need..] + b;
  }

  /** Taking frames out early and then again after more bytes finds the same frames. */
  lemma {:induction false} DrainComposes(a: seq<byte>, b: seq<byte>)
    ensures var (fs, left) := Drain(a);
            var (gs, left') := Drain(left + b);
            Drain(a + b) == (fs + gs, left')
    decreases |a|
  {
    hide SizeField;
    if Extract(a).Some? && Extract(a).value.0 != [] {
      var (f, rest) := Extract(a).value;
      ExtractExtends(a, b);
      DrainComposes(rest, b);
      var (fs, left) := Drain(rest);
      var (gs, _) := Drain(left + b);
      assert [f] + (fs + gs) == ([f] + fs) + gs;
    } else {
      assert [] + Drain(a + b).0 == Drain(a + b).0;
    }
  }

  lemma {:induction false} DrainLeavesNone(q: seq<byte>)
    ensures Drain(Drain(q).1) == ([], Drain(q).1)
    decreases |q|
  {
    if Extract(q).Some? && Extract(q).value.0 != [] {
      DrainLeavesNone(Extract(q).value.1);
    }
  }

  /** Nothing is lost and nothing whole is left: the frames and the rest are the bytes there were, and
      the rest is too short for a header or for what its size field says, or says nothing at all. */
  lemma {:induction false} DrainIsComplete(q: seq<byte>)
    ensures var (fs, left) := Drain(q);
            && q == Concat(fs) + left
            && (|left| < 5 || !(0 < 5 + SizeField(left) <= |left|))
            && forall i | 0 <= i < |fs| :: CutAt(fs[i], Concat(fs[i..]) + left)
    decreases |q|
  {
    hide SizeField;
    var (fs, left) := Drain(q);
    if Extract(q).Some? && Extract(q).value.0 != [] {
      var (f, rest) := Extract(q).value;
      DrainIsComplete(rest);
      assert fs[1..] == Drain(rest).0;
      assert f + (Concat(fs[1..]) + left) == (f + Concat(fs[1..])) + left;
      forall i | 0 <= i < |fs| ensures CutAt(fs[i], Concat(fs[i..]) + left) {
        if i > 0 { assert fs[i..] == fs[1..][i - 1..]; } else { assert fs[0..] == fs; }
      }
    } else {
      if Extract(q).Some? { assert |Extract(q).value.0| == 5 + SizeField(q); }
      assert [] + left == left;
    }
  }

  /** `f` is what the size field at the start of `bytes` says. */
  predicate CutAt(f: seq<byte>, bytes: seq<byte>) {
    |bytes| >= 5 && 0 < |f| == 5 + SizeField(bytes) && f <= bytes
  }

  /** The guard behind the endless loop: a size field of -5, which takes the whole header back. */
  lemma SpinsExactlyWhen(q: seq<byte>)
    ensures Spins(q) <==> |q| >= HEADER_SIZE && SizeField(q) == -5
  {
    hide IntFrom;
    if |q| >= HEADER_SIZE {
      var need := HEADER_SIZE + SizeField(q);
      assert 0 <= need <= |q| ==> |q[..need]| == need;
    }
  }

  /** Five bytes are enough. */
  lemma SpinningHeader(key: byte, checkSum: byte)
    ensures Spins(Header(-5, key, checkSum)) && Header(-5, key, checkSum) == [CODE, 0xFB, 0xFF, key, checkSum]
    ensures ReceiveRun(256, Start, [Header(-5, key, checkSum)]) == Receiver(Header(-5, key, checkSum), [], Spinning)
  {
    var h := Header(-5, key, checkSum);
    assert ToBytes(-5, 2) == [0xFB, 0xFF];
    assert [0xFB, 0xFF] == h[1..3];
    assert IntFrom(Short, h[1..3]) == -5 by { IntRoundTrip(Short, -5); }
    SpinsExactlyWhen(h);
    assert [] + h == h;
  }

  /** Every run, whatever the stream and the cuts: what has come out and what is left are those of the
      bytes taken in, put together; and the run is still open, or was refused at the first transfer not
      taken in, or spins on what is left. */
  lemma {:induction false} RunIsDrainOfTaken(bufferSize: nat, r: Receiver, chunks: seq<seq<byte>>)
    requires r.status == Receiving && Drain(r.queue) == ([], r.queue)
    ensures var k, w := TakenIn(bufferSize, r, chunks), ReceiveRun(bufferSize, r, chunks);
            var (fs, left) := Drain(r.queue + Concat(chunks[..k]));
            && w.frames == r.frames + fs && w.queue == left
            && (match w.status
                case Receiving => k == |chunks|
                case Refused => k < |chunks| && !Accepts(bufferSize, left, chunks[k])
                case Spinning => Spins(left))
            && (!Spins(r.queue) ==> (w.status == Spinning <==> Spins(left)))
    decreases |chunks|
  {
    hide Drain, Extract;
    var k := TakenIn(bufferSize, r, chunks);
    if k == 0 {
      assert r.queue + [] == r.queue && r.frames + [] == r.frames;
      if chunks != [] { StoppedStays(bufferSize, Receive(bufferSize, r, chunks[0]), chunks[1..]); }
    } else {
      var c, more := chunks[0], Concat(chunks[1..][..k - 1]);
      var (fs, left) := Drain(r.queue + c);
      DrainLeavesNone(r.queue + c);
      assert chunks[..k][1..] == chunks[1..][..k - 1];
      assert r.queue + (c + more) == (r.queue + c) + more;
      DrainComposes(r.queue + c, more);
      assert (r.frames + fs) + Drain(left + more).0 == r.frames + (fs + Drain(left + more).0);
      if Spins(left) {
        StoppedStays(bufferSize, Receive(bufferSize, r, c), chunks[1..]);
        assert left + [] == left;
      } else {
        RunIsDrainOfTaken(bufferSize, Receive(bufferSize, r, c), chunks[1..]);
      }
    }
  }

  lemma {:induction false} StoppedStays(bufferSize: nat, r: Receiver, chunks: seq<seq<byte>>)
    requires r.status != Receiving
    ensures ReceiveRun(bufferSize, r, chunks) == r && TakenIn(bufferSize, r, chunks) == 0
    decreases |chunks|
  {
    if chunks != [] {
      StoppedStays(bufferSize, r, chunks[1..]);
    }
  }

  /** Two cuts of the same stream that are both taken in wholly come to the same receiver. */
  lemma ChunkingDoesNotMatter(bufferSize: nat, r: Receiver, chunks: seq<seq<byte>>, chunks': seq<seq<byte>>)
    requires r.status == Receiving && Drain(r.queue) == ([], r.queue)
    ensures var w, w' := ReceiveRun(bufferSize, r, chunks), ReceiveRun(bufferSize, r, chunks');
            Concat(chunks) == Concat(chunks') && w.status == Receiving && w'.status == Receiving ==> w == w'
  {
    hide Drain, Concat;
    RunIsDrainOfTaken(bufferSize, r, chunks);
    RunIsDrainOfTaken(bufferSize, r, chunks');
    assert chunks[..|chunks|] == chunks && chunks'[..|chunks'|] == chunks';
  }

  /** Whatever the cut, a run that is not refused ends up spinning exactly when the frames of the whole
      stream lead to a size field of -5. */
  lemma EveryCutSpinsExactlyWhen(bufferSize: nat, r: Receiver, chunks: seq<seq<byte>>)
    requires r.status == Receiving && Drain(r.queue) == ([], r.queue) && !Spins(r.queue)
    ensures var w, left := ReceiveRun(bufferSize, r, chunks), Drain(r.queue + Concat(chunks)).1;
            w.status != Refused ==> (w.status == Spinning <==> |left| >= HEADER_SIZE && SizeField(left) == -5)
  {
    hide Drain, Extract, SizeField, Concat;
    var all, k := Concat(chunks), TakenIn(bufferSize, r, chunks);
    var taken := Concat(chunks[..k]);
    SpinsExactlyWhen(Drain(r.queue + all).1);
    RunIsDrainOfTaken(bufferSize, r, chunks);
    ConcatStart(chunks, k);
    var rest := all[|taken|..];
    assert r.queue + all == (r.queue + taken) + rest;
    DrainComposes(r.queue + taken, rest);
    assert chunks[..|chunks|] == chunks;
    if Spins(Drain(r.queue + taken).1) {
      SpinExtends(Drain(r.queue + taken).1, rest);
    }
  }

  // ---- which cuts are taken in ---------------------------------------------------------------

  /** The system fills some of the free space `recvIO` offers each time, all of it at most. */
  predicate Offered(bufferSize: nat, r: Receiver, chunks: seq<seq<byte>>)
    decreases |chunks|
  {
    chunks == [] ||
    (&& (r.status == Receiving ==> 0 < |chunks[0]| <= bufferSize - 1 - |r.queue|)
     && Offered(bufferSize, Receive(bufferSize, r, chunks[0]), chunks[1..]))
  }

  predicate IsCut(bufferSize: nat, r: Receiver, chunks: seq<seq<byte>>, stream: seq<byte>) {
    Concat(chunks) == stream && Offered(bufferSize, r, chunks)
  }

  lemma {:induction false} DrainShrinks(q: seq<byte>)
    ensures |Drain(q).1| <= |q|
    ensures forall f | f in Drain(q).0 :: |f| <= |q|
    decreases |q|
  {
    if Extract(q).Some? && Extract(q).value.0 != [] {
      DrainShrinks(Extract(q).value.1);
    }
  }

  lemma {:induction false} ShortStreamIsTaken(bufferSize: nat, r: Receiver, chunks: seq<seq<byte>>)
    requires r.status != Refused && Offered(bufferSize, r, chunks)
    requires |r.queue| + |Concat(chunks)| < bufferSize - 1
    ensures ReceiveRun(bufferSize, r, chunks).status != Refused
    decreases |chunks|
  {
    hide Drain;
    if r.status == Spinning {
      StoppedStays(bufferSize, r, chunks);
    } else if chunks != [] {
      DrainShrinks(r.queue + chunks[0]);
      ShortStreamIsTaken(bufferSize, Receive(bufferSize, r, chunks[0]), chunks[1..]);
    }
  }

  /** The cut whose first transfer fills the ring. */
  function FillingCut(bufferSize: nat, r: Receiver, stream: seq<byte>): seq<seq<byte>>
    requires |r.queue| < bufferSize - 1 <= |r.queue| + |stream|
  {
    var free := bufferSize - 1 - |r.queue|;
    [stream[..free], stream[free..]]
  }

  lemma FillingCutIsRefused(bufferSize: nat, r: Receiver, stream: seq<byte>)
    requires r.status == Receiving && |r.queue| < bufferSize - 1 <= |r.queue| + |stream|
    ensures IsCut(bufferSize, r, FillingCut(bufferSize, r, stream), stream)
    ensures ReceiveRun(bufferSize, r, FillingCut(bufferSize, r, stream)) == r.(status := Refused)
  {
    hide Drain;
    var cut := FillingCut(bufferSize, r, stream);
    var stopped := r.(status := Refused);
    assert Receive(bufferSize, r, cut[0]) == stopped;
    ConcatOfOne(cut[1]);
    assert cut[1..] == [cut[1]];
    assert Receive(bufferSize, stopped, cut[1]) == stopped;
    assert Offered(bufferSize, stopped, cut[1..]);
    StoppedStays(bufferSize, stopped, cut[1..]);
  }

  /** The exact condition on the stream: no way of cutting it is refused if and only if it leaves a
      byte of the ring free even when nothing is taken out meanwhile. */
  lemma NoCutRefusedExactlyWhen(bufferSize: nat, r: Receiver, stream: seq<byte>)
    requires r.status == Receiving && |r.queue| < bufferSize - 1
    ensures (forall chunks | IsCut(bufferSize, r, chunks, stream) ::
               ReceiveRun(bufferSize, r, chunks).status != Refused)
       <==> |r.queue| + |stream| < bufferSize - 1
  {
    if |r.queue| + |stream| < bufferSize - 1 {
      forall chunks | IsCut(bufferSize, r, chunks, stream)
        ensures ReceiveRun(bufferSize, r, chunks).status != Refused
      {
        ShortStreamIsTaken(bufferSize, r, chunks);
      }
    } else {
      FillingCutIsRefused(bufferSize, r, stream);
    }
  }

  /** No frame as long as the ring's capacity ever comes out, in any run of any stream. */
  lemma {:induction false} NoLongFrame(bufferSize: nat, r: Receiver, chunks: seq<seq<byte>>)
    requires forall f | f in r.frames :: |f| < bufferSize - 1
    ensures forall f | f in ReceiveRun(bufferSize, r, chunks).frames :: |f| < bufferSize - 1
    decreases |chunks|
  {
    hide Drain, Extract;
    if chunks != [] {
      DrainShrinks(r.queue + chunks[0]);
      NoLongFrame(bufferSize, Receive(bufferSize, r, chunks[0]), chunks[1..]);
    }
  }

  // ---- from sender to receiver ---------------------------------------------------------------

  datatype Message = Message(payload: seq<byte>, key: byte)

  /** The size field can tell the payload size. */
  predicate Sendable(m: Message) {
    |m.payload| < 0x8000
  }

  function FrameOf(m: Message, staticKey: byte): (f: seq<byte>)
    ensures |f| == HEADER_SIZE + |m.payload|
  {
    Sent(m.payload, m.key, staticKey)
  }

  function Frames(ms: seq<Message>, staticKey: byte): (fs: seq<seq<byte>>)
    ensures |fs| == |ms|
  {
    seq(|ms|, i requires 0 <= i < |ms| => FrameOf(ms[i], staticKey))
  }

  lemma ExtractFrame(m: Message, staticKey: byte, rest: seq<byte>)
    requires Sendable(m)
    ensures Extract(FrameOf(m, staticKey) + rest) == Some((FrameOf(m, staticKey), rest))
  {
    hide Sent, IntFrom;
    var f := FrameOf(m, staticKey);
    SentSizeField(m.payload, m.key, staticKey);
    assert (f + rest)[1..3] == f[1..3];
    assert (f + rest)[..|f|] == f && (f + rest)[|f|..] == rest;
  }

  lemma NoFrameInPrefix(m: Message, staticKey: byte, k: nat)
    requires Sendable(m) && k < HEADER_SIZE + |m.payload|
    ensures Extract(FrameOf(m, staticKey)[..k]) == None
  {
    hide Sent, IntFrom;
    var f := FrameOf(m, staticKey);
    SentSizeField(m.payload, m.key, staticKey);
    if k >= HEADER_SIZE {
      assert f[..k][1..3] == f[1..3];
    }
  }

  lemma {:induction false} DrainFrames(ms: seq<Message>, staticKey: byte, partial: seq<byte>)
    requires forall m | m in ms :: Sendable(m)
    requires Extract(partial) == None
    ensures Drain(Concat(Frames(ms, staticKey)) + partial) == (Frames(ms, staticKey), partial)
    decreases |ms|
  {
    hide Sent, SizeField, Sendable;
    if ms == [] {
      assert [] + partial == partial;
    } else {
      var f, fs := FrameOf(ms[0], staticKey), Frames(ms[1..], staticKey);
      assert Frames(ms, staticKey) == [f] + fs;
      assert Concat(Frames(ms, staticKey)) == f + Concat(fs);
      assert (f + Concat(fs)) + partial == f + (Concat(fs) + partial);
      ExtractFrame(ms[0], staticKey, Concat(fs) + partial);
      DrainFrames(ms[1..], staticKey, partial);
    }
  }

  lemma SpinExtends(a: seq<byte>, b: seq<byte>)
    requires Spins(a)
    ensures Spins(a + b) && Drain(a + b) == ([], a + b)
  {
    ExtractExtends(a, b);
  }

  /** What a stretch of a well-formed stream drains to: frames of the stream, in order, and no spin. */
  lemma DrainOfStart(whole: seq<byte>, start: seq<byte>)
    requires start <= whole && Extract(Drain(whole).1) == None
    ensures Drain(start).0 <= Drain(whole).0
    ensures !Spins(Drain(start).1)
  {
    var rest, left := whole[|start|..], Drain(start).1;
    assert start + rest == whole;
    DrainComposes(start, rest);
    if Spins(left) { SpinExtends(left, rest); }
  }

  lemma {:induction false} ConcatStart(chunks: seq<seq<byte>>, k: nat)
    requires k <= |chunks|
    ensures Concat(chunks[..k]) <= Concat(chunks)
    decreases k
  {
    if k > 0 {
      ConcatStart(chunks[1..], k - 1);
      assert chunks[..k][1..] == chunks[1..][..k - 1];
    }
  }

  /** End to end, for whole frames and the start of a further one cut in any way whatever. What comes
      out are frames that were sent, from the first on and without a gap, and each deciphers to its
      payload; and unless a transfer was refused, all of them have come out and the start of the
      further one waits in the ring. */
  lemma ReceivedIsSent(bufferSize: nat, ms: seq<Message>, next: Message, k: nat, staticKey: byte,
                       chunks: seq<seq<byte>>)
    requires (forall m | m in ms :: Sendable(m)) && Sendable(next) && k < HEADER_SIZE + |next.payload|
    ensures Concat(chunks) == Concat(Frames(ms, staticKey)) + FrameOf(next, staticKey)[..k] ==>
              var w := ReceiveRun(bufferSize, Start, chunks);
              && w.frames <= Frames(ms, staticKey)
              && (forall i | 0 <= i < |w.frames| ::
                    var f := w.frames[i];
                    && SpanFits(f) && Decrypted(f, |f|, staticKey).1
                    && Decrypted(f, |f|, staticKey).0[HEADER_SIZE..] == ms[i].payload)
              && w.status != Spinning
              && (w.status == Receiving ==>
                    w.frames == Frames(ms, staticKey) && w.queue == FrameOf(next, staticKey)[..k])
  {
    hide FrameOf, Decrypted, SpanFits, Sendable, Drain, Concat;
    var stream, partial := Concat(chunks), FrameOf(next, staticKey)[..k];
    if stream != Concat(Frames(ms, staticKey)) + partial { return; }
    var taken, w := TakenIn(bufferSize, Start, chunks), ReceiveRun(bufferSize, Start, chunks);
    NoFrameInPrefix(next, staticKey, k);
    DrainFrames(ms, staticKey, partial);
    EmptyIsSettled();
    RunIsDrainOfTaken(bufferSize, Start, chunks);
    ConcatStart(chunks, taken);
    assert [] + Concat(chunks[..taken]) == Concat(chunks[..taken]);
    DrainOfStart(stream, Concat(chunks[..taken]));
    assert chunks[..|chunks|] == chunks;
    forall i | 0 <= i < |w.frames|
      ensures var f := w.frames[i];
              && |f| >= HEADER_SIZE && SpanFits(f) && Decrypted(f, |f|, staticKey).1
              && Decrypted(f, |f|, staticKey).0[HEADER_SIZE..] == ms[i].payload
    {
      FrameDeciphers(ms[i], staticKey);
    }
  }

  lemma EmptyIsSettled()
    ensures Drain([]) == ([], []) && Extract([]) == None
  {
  }

  lemma FrameDeciphers(m: Message, staticKey: byte)
    ensures var f := FrameOf(m, staticKey);
            && SpanFits(f) && Decrypted(f, |f|, staticKey).1
            && Decrypted(f, |f|, staticKey).0[HEADER_SIZE..] == m.payload
  {
    hide Sent, Decrypted, SpanFits;
    WireRoundTrip(m.payload, m.key, staticKey);
  }

  // ---- which messages get through ------------------------------------------------------------

  ghost predicate Delivers(bufferSize: nat, ms: seq<Message>, staticKey: byte, chunks: seq<seq<byte>>) {
    ReceiveRun(bufferSize, Start, chunks) == Receiver([], Frames(ms, staticKey), Receiving)
  }

  /** Every cut gets the messages through if and only if all their frames together are shorter than
      the ring's capacity. */
  lemma EveryCutDeliversExactlyWhen(bufferSize: nat, ms: seq<Message>, staticKey: byte)
    requires bufferSize >= 2 && forall m | m in ms :: Sendable(m)
    ensures (forall chunks | IsCut(bufferSize, Start, chunks, Concat(Frames(ms, staticKey))) ::
               Delivers(bufferSize, ms, staticKey, chunks))
       <==> |Concat(Frames(ms, staticKey))| < bufferSize - 1
  {
    hide Frames, Concat;
    var stream := Concat(Frames(ms, staticKey));
    if |stream| < bufferSize - 1 {
      forall chunks | IsCut(bufferSize, Start, chunks, stream)
        ensures Delivers(bufferSize, ms, staticKey, chunks)
      {
        ShortStreamIsTaken(bufferSize, Start, chunks);
        WholeFramesReceived(bufferSize, ms, staticKey, chunks);
      }
    } else {
      FillingCutIsRefused(bufferSize, Start, stream);
      assert !Delivers(bufferSize, ms, staticKey, FillingCut(bufferSize, Start, stream));
    }
  }

  lemma WholeFramesReceived(bufferSize: nat, ms: seq<Message>, staticKey: byte, chunks: seq<seq<byte>>)
    requires (forall m | m in ms :: Sendable(m)) && Concat(chunks) == Concat(Frames(ms, staticKey))
    requires ReceiveRun(bufferSize, Start, chunks).status != Refused
    ensures Delivers(bufferSize, ms, staticKey, chunks)
  {
    hide Drain;
    var next := Message([], 0);
    assert FrameOf(next, staticKey)[..0] == [];
    assert Concat(Frames(ms, staticKey)) + [] == Concat(Frames(ms, staticKey));
    ReceivedIsSent(bufferSize, ms, next, 0, staticKey, chunks);
  }

  /** Some cut gets the messages through if and only if each frame by itself is shorter than the
      ring's capacity: then one transfer for each does. */
  lemma SomeCutDeliversExactlyWhen(bufferSize: nat, ms: seq<Message>, staticKey: byte)
    requires bufferSize >= 2 && forall m | m in ms :: Sendable(m)
    ensures (exists chunks :: IsCut(bufferSize, Start, chunks, Concat(Frames(ms, staticKey)))
                              && Delivers(bufferSize, ms, staticKey, chunks))
       <==> forall m | m in ms :: HEADER_SIZE + |m.payload| < bufferSize - 1
  {
    hide ReceiveRun, Offered, Concat, FrameOf;
    if forall m | m in ms :: HEADER_SIZE + |m.payload| < bufferSize - 1 {
      OneTransferEach(bufferSize, [], ms, staticKey);
      assert [] + Frames(ms, staticKey) == Frames(ms, staticKey);
      assert IsCut(bufferSize, Start, Frames(ms, staticKey), Concat(Frames(ms, staticKey)));
    } else {
      var m :| m in ms && HEADER_SIZE + |m.payload| >= bufferSize - 1;
      var i :| 0 <= i < |ms| && ms[i] == m;
      forall chunks ensures !Delivers(bufferSize, ms, staticKey, chunks) {
        NoLongFrame(bufferSize, Start, chunks);
        assert Frames(ms, staticKey)[i] in Frames(ms, staticKey);
      }
    }
  }

  lemma {:induction false} OneTransferEach(bufferSize: nat, before: seq<seq<byte>>, ms: seq<Message>, staticKey: byte)
    requires forall m | m in ms :: Sendable(m) && HEADER_SIZE + |m.payload| < bufferSize - 1
    ensures var r := Receiver([], before, Receiving);
            && Offered(bufferSize, r, Frames(ms, staticKey))
            && ReceiveRun(bufferSize, r, Frames(ms, staticKey))
            == Receiver([], before + Frames(ms, staticKey), Receiving)
    decreases |ms|
  {
    if ms == [] {
      assert before + Frames(ms, staticKey) == before;
    } else {
      hide Receive, FrameOf, Frames, Sendable;
      var f, fs := FrameOf(ms[0], staticKey), Frames(ms[1..], staticKey);
      FramesCons(ms, staticKey);
      OneTransfer(bufferSize, before, ms[0], staticKey);
      OneTransferEach(bufferSize, before + [f], ms[1..], staticKey);
      OneMore(bufferSize, before, f, fs);
    }
  }

  lemma OneMore(bufferSize: nat, before: seq<seq<byte>>, f: seq<byte>, fs: seq<seq<byte>>)
    requires 0 < |f| < bufferSize - 1
    requires Receive(bufferSize, Receiver([], before, Receiving), f) == Receiver([], before + [f], Receiving)
    requires var r := Receiver([], before + [f], Receiving);
             Offered(bufferSize, r, fs) && ReceiveRun(bufferSize, r, fs) == Receiver([], (before + [f]) + fs, Receiving)
    ensures var r := Receiver([], before, Receiving);
            && Offered(bufferSize, r, [f] + fs)
            && ReceiveRun(bufferSize, r, [f] + fs) == Receiver([], before + ([f] + fs), Receiving)
  {
    hide Receive;
    assert (before + [f]) + fs == before + ([f] + fs);
    assert ([f] + fs)[1..] == fs;
  }

  lemma FramesCons(ms: seq<Message>, staticKey: byte)
    requires ms != []
    ensures Frames(ms, staticKey) == [FrameOf(ms[0], staticKey)] + Frames(ms[1..], staticKey)
  {
    hide FrameOf;
  }

  lemma OneTransfer(bufferSize: nat, before: seq<seq<byte>>, m: Message, staticKey: byte)
    requires Sendable(m) && HEADER_SIZE + |m.payload| < bufferSize - 1
    ensures var f := FrameOf(m, staticKey);
            Receive(bufferSize, Receiver([], before, Receiving), f) == Receiver([], before + [f], Receiving)
  {
    var f := FrameOf(m, staticKey);
    WholeFrame(m, staticKey);
    EmptyIsSettled();
    hide Drain, Sendable, FrameOf, Extract;
    assert [] + f == f;
  }

  lemma WholeFrame(m: Message, staticKey: byte)
    requires Sendable(m)
    ensures Drain(FrameOf(m, staticKey)) == ([FrameOf(m, staticKey)], [])
  {
    hide FrameOf, SizeField, Sendable;
    var f := FrameOf(m, staticKey);
    ExtractFrame(m, staticKey, []);
    EmptyIsSettled();
    assert f + [] == f && [f] + [] == [f];
  }

  /** The cut does matter to the source: two frames of 130 and 125 bytes arrive in two transfers
      through a ring of 256, and stop the connection in one. */
  lemma CutMatters(a: Message, b: Message, staticKey: byte)
    requires |a.payload| == 125 && |b.payload| == 120
    ensures var f, g := FrameOf(a, staticKey), FrameOf(b, staticKey);
            && IsCut(256, Start, [f, g], f + g) && ReceiveRun(256, Start, [f, g]) == Receiver([], [f, g], Receiving)
            && IsCut(256, Start, [f + g], f + g) && ReceiveRun(256, Start, [f + g]) == Start.(status := Refused)
  {
    hide FrameOf, Drain;
    var f, g := FrameOf(a, staticKey), FrameOf(b, staticKey);
    OneTransferEach(256, [], [a, b], staticKey);
    assert Frames([a, b], staticKey) == [f, g] && [] + [f, g] == [f, g];
    assert [f, g][1..] == [g];
    ConcatOfOne(g);
    ConcatOfOne(f + g);
    assert Offered(256, Start.(status := Refused), [f + g][1..]);
  }

  // ---- the session ---------------------------------------------------------------------------

  class Session {
    var recvBuffer: RingBuffer

    ghost predicate Valid()
      reads this, recvBuffer
    {
      recvBuffer.Valid() && recvBuffer.bufferSize == 256
    }

    constructor ()
      ensures Valid() && fresh(recvBuffer) && fresh(recvBuffer.buffer) && recvBuffer.Queue() == []
    {
      recvBuffer := new RingBuffer(256);
      new;
      assert Pow2(8) == 256;
    }

    /** `recvIO` offers the free space in two pieces, the system fills them with `data`, and `recved`
        moves the rear over it. */
    method Received(data: seq<byte>) returns (ok: bool)
      requires Valid() && |recvBuffer.Queue()| + |data| <= 255
      modifies recvBuffer`tailPtr, recvBuffer.buffer
      ensures Valid() && ok == Accepts(256, old(recvBuffer.Queue()), data)
      ensures ok <==> 0 < |data| < 255 - |old(recvBuffer.Queue())|
      ensures recvBuffer.Queue() == if ok then old(recvBuffer.Queue()) + data else old(recvBuffer.Queue())
    {
      var b := recvBuffer;
      PushedContents(b.order, b.buffer[..], b.headPtr, b.tailPtr, data);
      b.StoreWrapped(b.Tail(), b.DirectEnqueueSize(), data);
      if b.FreeSize() <= |data| || |data| == 0 {
        return false;
      }
      var moved := b.MoveRear(|data|);
      ok := true;
    }

    /** Moves one complete packet from the ring into `p`, which is empty behind its header room. */
    method RecvedPacket(p: Serializer) returns (ok: bool)
      requires Valid() && p.Valid() && p.block != recvBuffer.buffer
      requires p.headPtr == p.tailPtr == p.bufferPtr + HEADER_SIZE && 256 <= p.bufferSize
      modifies recvBuffer`headPtr, p.block, p`headPtr, p`tailPtr
      ensures Valid() && p.Valid()
      ensures ok <==> Extract(old(recvBuffer.Queue())).Some?
      ensures var q := old(recvBuffer.Queue());
              && (ok <==> |q| >= 5 && 0 <= 5 + SizeField(q) <= |q|)
              && (ok ==> var n := 5 + SizeField(q); recvBuffer.Queue() == q[n..] && p.block[..n] == q[..n])
      ensures !ok ==> recvBuffer.Queue() == old(recvBuffer.Queue())
      ensures ok ==> var (f, rest) := Extract(old(recvBuffer.Queue())).value;
                     && recvBuffer.Queue() == rest && f == p.block[..|f|]
                     && Unread(p.V()) == f + old(p.block[..])[|f|..Max(HEADER_SIZE, |f|)]
    {
      var b := recvBuffer;
      if b.Size() >= HEADER_SIZE {
        var h := new byte[HEADER_SIZE];
        var got := b.Front(h, HEADER_SIZE);
        if got != HEADER_SIZE {
          return false;
        }
        ghost var q := b.Queue();
        assert h[..] == q[..HEADER_SIZE];
        assert h[1..3] == h[..][1..3] == q[1..3];
        var size := IntFrom(Short, h[1..3]);
        if 0 <= HEADER_SIZE + size <= b.Size() {
          ghost var was, f := p.block[..], q[..HEADER_SIZE + size];
          var popped := b.Pop(p.block, HEADER_SIZE + size);
          PacketBytes(was, f);
          ShowPacket(p, size);
          return true;
        }
      }
      return false;
    }

    /** The cursors around a packet that is at the start of the block. */
    method ShowPacket(p: Serializer, size: int)
      requires p.Valid() && p.headPtr == p.tailPtr == p.bufferPtr + HEADER_SIZE
      requires -5 <= size && HEADER_SIZE + size <= p.bufferSize
      modifies p`headPtr, p`tailPtr
      ensures p.Valid() && Unread(p.V()) == p.block[..Max(HEADER_SIZE, HEADER_SIZE + size)]
    {
      var rear := p.MoveRear(size);
      var front := p.MoveFront(-5);
    }

    /** The packet as the bytes that came out of the ring. */
    method RecvedFrame(p: Serializer) returns (got: bool, frame: seq<byte>)
      requires Valid() && p.Valid() && p.block != recvBuffer.buffer
      requires p.headPtr == p.tailPtr == p.bufferPtr + HEADER_SIZE && 256 <= p.bufferSize
      modifies recvBuffer`headPtr, p.block, p`headPtr, p`tailPtr
      ensures Valid() && p.Valid()
      ensures got <==> Extract(old(recvBuffer.Queue())).Some?
      ensures got ==> Extract(old(recvBuffer.Queue())) == Some((frame, recvBuffer.Queue()))
      ensures !got ==> recvBuffer.Queue() == old(recvBuffer.Queue())
    {
      hide SizeField;
      var before := recvBuffer.Size();
      got := RecvedPacket(p);
      var taken := before - recvBuffer.Size();
      frame := p.block[..taken];
    }

    /** What the worker needs of the pool: every serializer in it holds at least a ring's worth of
        bytes, in a block of its own. */
    ghost predicate Serves(pool: SerializerPool)
      reads this, recvBuffer, pool, pool.world.held.Keys`buffer, pool.free`bufferSize, pool.free`block
      reads pool.world.count.Keys`referenceCounter, pool.world.count.Keys`bufferSize, pool.world.count.Keys`block
    {
      && Valid() && pool.Linked()
      && forall s | s in pool.free :: 256 <= s.bufferSize && s.block != recvBuffer.buffer
    }

    /** One round of the worker loop: a serializer from the pool, a packet moved into it if there is
        one, and the serializer back to the pool. */
    method TakeFrame(pool: SerializerPool) returns (got: bool, frame: seq<byte>)
      requires Serves(pool)
      modifies recvBuffer`headPtr, pool, pool.free`headPtr, pool.free`tailPtr, pool.free`referenceCounter, pool.Blocks()
      ensures Serves(pool)
      ensures forall s | s in pool.free :: s in old(pool.free) || (fresh(s) && fresh(s.block))
      ensures PM.NothingKept(old(pool.world), pool.world)
      ensures got <==> Extract(old(recvBuffer.Queue())).Some?
      ensures got ==> Extract(old(recvBuffer.Queue())) == Some((frame, recvBuffer.Queue()))
      ensures !got ==> recvBuffer.Queue() == old(recvBuffer.Queue())
    {
      hide Extract, Contents, SerializerPool.Linked, PM.Step, PM.Conserved, PM.NothingKept;
      ghost var w := pool.world;
      var p := pool.AllocRaw();
      assert Valid() && 256 <= p.bufferSize && p.block != recvBuffer.buffer;
      got, frame := RecvedFrame(p);
      pool.Return(p, w);
    }

    /** The worker loop, with a handler that keeps no reference. `spins` when it would never end. */
    method TakeFrames(pool: SerializerPool) returns (frames: seq<seq<byte>>, spins: bool)
      requires Serves(pool)
      modifies recvBuffer`headPtr, pool, pool.free`headPtr, pool.free`tailPtr, pool.free`referenceCounter, pool.Blocks()
      ensures Serves(pool)
      ensures forall s | s in pool.free :: s in old(pool.free) || (fresh(s) && fresh(s.block))
      ensures PM.NothingKept(old(pool.world), pool.world)
      ensures Drain(old(recvBuffer.Queue())) == (frames, recvBuffer.Queue())
      ensures spins <==> var q := recvBuffer.Queue(); |q| >= HEADER_SIZE && SizeField(q) == -5
    {
      hide Extract, Drain, Contents, SerializerPool.Linked, PM.Conserved;
      frames := [];
      ghost var all, rest := recvBuffer.Queue(), recvBuffer.Queue();
      assert [] + Drain(all).0 == Drain(all).0;
      var got, frame := TakeFrame(pool);
      while got && frame != []
        invariant Serves(pool)
        invariant forall s | s in pool.free :: s in old(pool.free) || (fresh(s) && fresh(s.block))
        invariant PM.NothingKept(old(pool.world), pool.world)
        invariant Drain(all) == (frames + Drain(rest).0, Drain(rest).1)
        invariant if got then Extract(rest) == Some((frame, recvBuffer.Queue()))
                  else Extract(rest) == None && recvBuffer.Queue() == rest
        decreases |rest|
      {
        DrainOnce(frames, rest);
        frames := frames + [frame];
        rest := recvBuffer.Queue();
        got, frame := TakeFrame(pool);
      }
      DrainEnds(frames, rest);
      SpinsExactlyWhen(rest);
      spins := got;
    }

    /** The worker's handling of one completed receive. */
    method Deliver(data: seq<byte>, pool: SerializerPool) returns (frames: seq<seq<byte>>, status: Status)
      requires Serves(pool) && |recvBuffer.Queue()| + |data| <= 255
      modifies recvBuffer`headPtr, recvBuffer`tailPtr, recvBuffer.buffer
      modifies pool, pool.free`headPtr, pool.free`tailPtr, pool.free`referenceCounter, pool.Blocks()
      ensures Serves(pool)
      ensures forall s | s in pool.free :: s in old(pool.free) || (fresh(s) && fresh(s.block))
      ensures PM.NothingKept(old(pool.world), pool.world)
      ensures Receiver(recvBuffer.Queue(), frames, status)
           == Receive(256, Receiver(old(recvBuffer.Queue()), [], Receiving), data)
    {
      hide Extract, Drain, Contents, PM.Conserved;
      var ok := Received(data);
      if !ok {
        return [], Refused;
      }
      var spins;
      frames, spins := TakeFrames(pool);
      SpinsExactlyWhen(recvBuffer.Queue());
      assert [] + frames == frames;
      status := if spins then Spinning else Receiving;
    }

    /** A whole run of completed receives, each into the free space the last one left. */
    method Serve(chunks: seq<seq<byte>>, pool: SerializerPool) returns (frames: seq<seq<byte>>, status: Status)
      requires Serves(pool) && Offered(256, Receiver(recvBuffer.Queue(), [], Receiving), chunks)
      modifies recvBuffer`headPtr, recvBuffer`tailPtr, recvBuffer.buffer
      modifies pool, pool.free`headPtr, pool.free`tailPtr, pool.free`referenceCounter, pool.Blocks()
      ensures Serves(pool)
      ensures PM.NothingKept(old(pool.world), pool.world)
      ensures Receiver(recvBuffer.Queue(), frames, status)
           == ReceiveRun(256, Receiver(old(recvBuffer.Queue()), [], Receiving), chunks)
    {
      frames, status := [], Receiving;
      var i := 0;
      ghost var start := Receiver(recvBuffer.Queue(), [], Receiving);
      assert chunks[0..] == chunks;
      while i < |chunks| && status == Receiving
        invariant i <= |chunks| && Serves(pool)
        invariant forall s | s in pool.free :: s in old(pool.free) || (fresh(s) && fresh(s.block))
        invariant PM.NothingKept(old(pool.world), pool.world)
        invariant var r := Receiver(recvBuffer.Queue(), frames, status);
                  ReceiveRun(256, start, chunks) == ReceiveRun(256, r, chunks[i..]) && Offered(256, r, chunks[i..])
      {
        hide Receive, Contents, SerializerPool.Linked, PM.Conserved;
        ghost var before := recvBuffer.Queue();
        ReceiveNext(before, frames, chunks[i..]);
        assert chunks[i..][1..] == chunks[i + 1..];
        var more, now := Deliver(chunks[i], pool);
        frames, status := frames + more, now;
        i := i + 1;
      }
      StoppedOrDone(256, Receiver(recvBuffer.Queue(), frames, status), chunks[i..]);
    }
  }

  /** A packet shorter than a header keeps what the block held behind it. */
  lemma PacketBytes(was: seq<byte>, f: seq<byte>)
    requires Max(HEADER_SIZE, |f|) <= |was|
    ensures Splice(was, 0, f)[..|f|] == f
    ensures Splice(was, 0, f)[..Max(HEADER_SIZE, |f|)] == f + was[|f|..Max(HEADER_SIZE, |f|)]
  {
  }

  /** One receive takes up a chunk and adds to the frames, whatever they were before. */
  lemma ReceiveNext(queue: seq<byte>, frames: seq<seq<byte>>, chunks: seq<seq<byte>>)
    requires chunks != [] && Offered(256, Receiver(queue, frames, Receiving), chunks)
    ensures 0 < |chunks[0]| <= 255 - |queue|
    ensures var r := Receiver(queue, frames, Receiving);
            var one := Receive(256, Receiver(queue, [], Receiving), chunks[0]);
            var r' := Receiver(one.queue, frames + one.frames, one.status);
            && Receive(256, r, chunks[0]) == r' && Offered(256, r', chunks[1..])
            && ReceiveRun(256, r, chunks) == ReceiveRun(256, r', chunks[1..])
  {
    hide Drain, Spins;
    var none: seq<seq<byte>> := [];
    assert frames + none == frames && none + Drain(queue + chunks[0]).0 == Drain(queue + chunks[0]).0;
  }

  lemma StoppedOrDone(bufferSize: nat, r: Receiver, chunks: seq<seq<byte>>)
    requires r.status != Receiving || chunks == []
    ensures ReceiveRun(bufferSize, r, chunks) == r
  {
    if chunks != [] {
      StoppedStays(bufferSize, r, chunks);
    }
  }

  lemma DrainOnce(frames: seq<seq<byte>>, q: seq<byte>)
    requires Extract(q).Some? && Extract(q).value.0 != []
    ensures var (f, rest) := Extract(q).value;
            && |rest| < |q|
            && (frames + Drain(q).0, Drain(q).1) == ((frames + [f]) + Drain(rest).0, Drain(rest).1)
  {
    var (f, rest) := Extract(q).value;
    var d := Drain(rest).0;
    assert Drain(q) == ([f] + d, Drain(rest).1) by { hide SizeField; }
    hide Extract, Drain;
    assert frames + ([f] + d) == (frames + [f]) + d;
  }

  lemma DrainEnds(frames: seq<seq<byte>>, q: seq<byte>)
    requires Extract(q).None? || Extract(q).value.0 == []
    ensures Drain(q) == ([], q) && frames + [] == frames && [] + frames == frames
    ensures Extract(q).Some? ==> Extract(q).value.1 == q
  {
    hide SizeField;
    if Extract(q).Some? { assert q == [] + Extract(q).value.1; }
  }
}

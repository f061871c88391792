/** Values of the growable linear buffer of `serializer.cpp`: where its bytes lie, how it grows, and
    what whole runs of operations do to it. */
module SerializerModel {
  import opened Bits
  import opened Options
  import opened Codec

  /** The order of the last two pointer assignments of `resize`. The source moves `headPtr` first and
      then computes the length from it (`AsWritten`); `LengthSaved` takes the length beforehand. */
  datatype Rule = AsWritten | LengthSaved

  /** `data` are the bytes from `bufferPtr` to `tailPtr`; `head` is the offset of `headPtr`. */
  datatype View = View(cap: nat, head: nat, data: seq<byte>)

  predicate Ok(v: View) {
    1 <= v.cap && v.head <= |v.data| <= v.cap
  }

  function Unread(v: View): seq<byte>
    requires Ok(v)
  {
    v.data[v.head..]
  }

  function Useable(v: View): nat
    requires Ok(v)
  {
    v.cap - |v.data|
  }

  // ---- addresses -----------------------------------------------------------------------------

  /** `headPtr` and `tailPtr` after `resize` has moved the bytes to `temp`. */
  function ResizedPointers(rule: Rule, temp: int, headPtr: int, tailPtr: int): (int, int) {
    match rule
    case AsWritten =>
      var headPtr := temp;
      (headPtr, temp + (tailPtr - headPtr))
    case LengthSaved =>
      var length := tailPtr - headPtr;
      (temp, temp + length)
  }

  /** Two allocated blocks do not touch: the allocator keeps its own bookkeeping between them. */
  predicate Separate(ptr: int, size: nat, ptr': int, size': nat) {
    ptr + size < ptr' || ptr' + size' < ptr
  }

  predicate InBlock(ptr: int, size: nat, p: int) {
    ptr <= p <= ptr + size
  }

  /** By the source's rule `tailPtr` keeps its old address, which is never one of the new block. */
  lemma TailAfterResize(ptr: int, size: nat, headPtr: int, tailPtr: int, temp: int, size': nat)
    requires ptr <= headPtr <= tailPtr <= ptr + size && Separate(ptr, size, temp, size')
    requires tailPtr - headPtr <= size'
    ensures ResizedPointers(AsWritten, temp, headPtr, tailPtr) == (temp, tailPtr) && !InBlock(temp, size', tailPtr)
    ensures ResizedPointers(LengthSaved, temp, headPtr, tailPtr) == (temp, temp + (tailPtr - headPtr))
    ensures InBlock(temp, size', temp + (tailPtr - headPtr))
  {
  }

  /** Four unread bytes in a full block of 4 at address 1000, grown into a block of 8 at 2000: the
      tail stays at 1004. */
  lemma TailLostExample()
    ensures ResizedPointers(AsWritten, 2000, 1000, 1004) == (2000, 1004)
    ensures Appended(AsWritten, View(4, 0, [1, 2, 3, 4]), [5]) == None
    ensures Appended(LengthSaved, View(4, 0, [1, 2, 3, 4]), [5]) == Some(View(8, 0, [1, 2, 3, 4, 5]))
  {
    var v := View(4, 0, [1, 2, 3, 4]);
    assert Grown(v, 1) == Grown(Doubled(v), 1) == Doubled(v);
    assert [1, 2, 3, 4][0..] + [5] == [1, 2, 3, 4, 5];
  }

  // ---- growth --------------------------------------------------------------------------------

  /** `resize(bufferSize * 2)` with the unread length kept: the unread bytes move to the front. */
  function Doubled(v: View): (r: View)
    requires Ok(v)
    ensures Ok(r) && Unread(r) == Unread(v) && Useable(r) > Useable(v)
  {
    View(2 * v.cap, 0, Unread(v))
  }

  /** `while (useableSize() < n) resize(bufferSize * 2)`. */
  function Grown(v: View, n: nat): (r: View)
    requires Ok(v)
    ensures Ok(r) && Useable(r) >= n && Unread(r) == Unread(v)
    decreases n - Useable(v)
  {
    if Useable(v) >= n then v else Grown(Doubled(v), n)
  }

  /** Bytes moved by the `memmove`s of that loop. */
  function CopiedBy(v: View, n: nat): nat
    requires Ok(v)
    decreases n - Useable(v)
  {
    if Useable(v) >= n then 0 else |Unread(v)| + CopiedBy(Doubled(v), n)
  }

  function Doublings(v: View, n: nat): nat
    requires Ok(v)
    decreases n - Useable(v)
  {
    if Useable(v) >= n then 0 else 1 + Doublings(Doubled(v), n)
  }

  /** Every doubling moves all the unread bytes. */
  lemma {:induction false} CopiedIsDoublings(v: View, n: nat)
    requires Ok(v)
    ensures CopiedBy(v, n) == Doublings(v, n) * |Unread(v)|
    decreases n - Useable(v)
  {
    if Useable(v) < n {
      CopiedIsDoublings(Doubled(v), n);
      var j, u := Doublings(v, n), |Unread(v)|;
      assert j * u == u + (j - 1) * u;
    }
  }

  /** The capacity reached is the first doubling that suffices, where the first check counts the
      bytes already read and the later ones do not. */
  lemma {:induction false} GrownIsLeastDoubling(v: View, n: nat)
    requires Ok(v)
    ensures var j := Doublings(v, n);
            && Grown(v, n).cap == v.cap * Pow2(j)
            && (j == 0 <==> |v.data| + n <= v.cap)
            && (j > 0 ==> |Unread(v)| + n <= v.cap * Pow2(j) < 2 * (|v.data| + n))
            && (forall i :: 1 <= i < j ==> v.cap * Pow2(i) < |Unread(v)| + n)
    decreases n - Useable(v)
  {
    if Useable(v) < n {
      var j := Doublings(v, n);
      GrownIsLeastDoubling(Doubled(v), n);
      DoubleTimes(v.cap, j);
      forall i | 1 <= i < j ensures v.cap * Pow2(i) < |Unread(v)| + n {
        DoubleTimes(v.cap, i);
        if i > 1 { assert 2 * v.cap * Pow2(i - 1) < |Unread(v)| + n; }
      }
    }
  }

  lemma DoubleTimes(c: nat, i: nat)
    requires i > 0
    ensures c * Pow2(i) == 2 * c * Pow2(i - 1)
  {
  }

  /** Doubling pays for its own copying. */
  lemma {:induction false} CopyingIsPaid(v: View, n: nat)
    requires Ok(v)
    ensures v.cap + CopiedBy(v, n) <= Grown(v, n).cap
    ensures Grown(v, n).cap != v.cap ==> Grown(v, n).cap < 2 * (|v.data| + n)
    ensures |Grown(v, n).data| <= |v.data|
    decreases n - Useable(v)
  {
    if Useable(v) < n {
      CopyingIsPaid(Doubled(v), n);
    }
  }

  // ---- operations ----------------------------------------------------------------------------

  /** Appending `bytes`; `None` when the tail pointer leaves the block, which is what a growth by the
      source's own rule does. */
  function Appended(rule: Rule, v: View, bytes: seq<byte>): (r: Option<View>)
    requires Ok(v)
    ensures r.Some? ==> Ok(r.value)
  {
    if Useable(v) < |bytes| && rule == AsWritten then None
    else var g := Grown(v, |bytes|); Some(g.(data := g.data + bytes))
  }

  function FrontMove(v: View, k: int): int
    requires Ok(v)
  {
    var bufferPtr: int := 0;
    if k >= 0 then Min(k, |Unread(v)|) else Max(k, bufferPtr - v.head)
  }

  function RearMove(v: View, k: int): int
    requires Ok(v)
  {
    if k >= 0 then Min(k, Useable(v)) else Max(k, -|Unread(v)|)
  }

  function MovedFront(v: View, k: int): (r: View)
    requires Ok(v)
    ensures Ok(r)
  {
    v.(head := v.head + FrontMove(v, k))
  }

  /** `exposed` is what memory holds in the bytes the tail moves over. */
  function MovedRear(v: View, k: int, exposed: seq<byte>): (r: View)
    requires Ok(v) && |exposed| == Max(0, RearMove(v, k))
    ensures Ok(r)
  {
    if RearMove(v, k) >= 0 then v.(data := v.data + exposed)
    else v.(data := v.data[..|v.data| + RearMove(v, k)])
  }

  /** `push`: room is made for all the bytes and they are stored, but the tail moves by their number
      narrowed to an `int`. */
  function Pushed(rule: Rule, v: View, bytes: seq<byte>): (r: Option<View>)
    requires Ok(v)
    ensures r.Some? ==> Ok(r.value)
  {
    if Useable(v) < |bytes| && rule == AsWritten then None
    else
      var g, k := Grown(v, |bytes|), AsInt32(|bytes|);
      Some(MovedRear(g, k, bytes[..Max(0, RearMove(g, k))]))
  }

  /** Where the tail is after a push of any length, and what lies in front of it. */
  lemma PushedTail(rule: Rule, v: View, bytes: seq<byte>)
    requires Ok(v) && Pushed(rule, v, bytes).Some?
    ensures var g, w, k := Grown(v, |bytes|), Pushed(rule, v, bytes).value, AsInt32(|bytes|);
            && w.cap == g.cap && w.head == g.head
            && |w.data| == |g.data| + (if k >= 0 then k else Max(k, g.head - |g.data|))
            && w.data == (g.data + bytes)[..|w.data|]
  {
    hide Grown, AsInt32, MovedRear, RearMove;
    TailOver(Grown(v, |bytes|), bytes, AsInt32(|bytes|));
  }

  lemma TailOver(g: View, bytes: seq<byte>, k: int)
    requires Ok(g) && k <= |bytes| <= Useable(g)
    ensures var w := MovedRear(g, k, bytes[..Max(0, RearMove(g, k))]);
            && w.cap == g.cap && w.head == g.head
            && |w.data| == |g.data| + (if k >= 0 then k else Max(k, g.head - |g.data|))
            && w.data == (g.data + bytes)[..|w.data|]
  {
    var n := |g.data| + if k >= 0 then k else Max(k, g.head - |g.data|);
    TakenFrom(g.data, bytes, n);
  }

  lemma TakenFrom(a: seq<byte>, b: seq<byte>, n: nat)
    requires n <= |a| + |b|
    ensures (a + b)[..n] == if n <= |a| then a[..n] else a + b[..n - |a|]
  {
  }

  /** Conversion of a `size_t` to `int`. */
  function AsInt32(n: nat): (k: int)
    ensures -0x8000_0000 <= k < 0x8000_0000 && (n - k) % 0x1_0000_0000 == 0
    ensures k <= n
    ensures k == n <==> n < 0x8000_0000
  {
    var u := n % 0x1_0000_0000;
    if u < 0x8000_0000 then u else u - 0x1_0000_0000
  }

  /** `push` appends its bytes exactly when they fit an `int` length and, by the source's rule of
      `resize`, when the free space behind the tail is enough already. */
  lemma PushAppendsExactlyWhen(rule: Rule, v: View, bytes: seq<byte>)
    requires Ok(v) && bytes != []
    ensures (Pushed(rule, v, bytes).Some? && Unread(Pushed(rule, v, bytes).value) == Unread(v) + bytes)
       <==> |bytes| < 0x8000_0000 && (|bytes| <= Useable(v) || rule == LengthSaved)
    ensures |bytes| < 0x8000_0000 ==> Pushed(rule, v, bytes) == Appended(rule, v, bytes)
  {
    var g := Grown(v, |bytes|);
    if |bytes| < 0x8000_0000 {
      assert bytes[..|bytes|] == bytes;
      assert (g.data + bytes)[g.head..] == g.data[g.head..] + bytes;
    } else if Pushed(rule, v, bytes).Some? {
      assert |Unread(Pushed(rule, v, bytes).value)| < |Unread(v)| + |bytes|;
    }
  }

  // ---- runs ----------------------------------------------------------------------------------

  datatype Op =
    | Append(bytes: seq<byte>)              // every `<<`
    | Push(bytes: seq<byte>)
    | Consume(count: nat)                   // every `>>`
    | Pop(count: nat)
    | MoveFront(distance: int)
    | MoveRear(distance: int, memory: seq<byte>)  // `memory`: what the block holds behind the tail
    | Clear

  function Apply(rule: Rule, v: View, op: Op): (r: Option<View>)
    requires Ok(v)
    ensures r.Some? ==> Ok(r.value)
  {
    match op
    case Append(bytes) => Appended(rule, v, bytes)
    case Push(bytes) => Pushed(rule, v, bytes)
    case Consume(count) => Some(MovedFront(v, count))
    case Pop(count) => Some(MovedFront(v, AsInt32(Min(count, |Unread(v)|))))
    case MoveFront(distance) => Some(MovedFront(v, distance))
    case MoveRear(distance, memory) =>
      var k := Max(0, RearMove(v, distance));
      Some(MovedRear(v, distance, if |memory| >= k then memory[..k] else seq(k, _ => 0)))
    case Clear => Some(View(v.cap, 0, []))
  }

  function Run(rule: Rule, v: View, ops: seq<Op>): (r: Option<View>)
    requires Ok(v)
    ensures r.Some? ==> Ok(r.value)
    decreases |ops|
  {
    if ops == [] then Some(v)
    else match Apply(rule, v, ops[0])
      case None => None
      case Some(v') => Run(rule, v', ops[1..])
  }

  /** The room an operation makes behind the tail before it stores anything. */
  function Needed(op: Op): nat {
    match op
    case Append(bytes) => |bytes|
    case Push(bytes) => |bytes|
    case _ => 0
  }

  /** Bytes put behind the tail by one operation. */
  function Added(v: View, op: Op): nat
    requires Ok(v)
  {
    match op
    case MoveRear(distance, _) => Max(0, RearMove(v, distance))
    case _ => Needed(op)
  }

  /** Bytes put behind the tail, and bytes moved by `resize`, over a run without pointer loss. */
  function Totals(v: View, ops: seq<Op>): (nat, nat)
    requires Ok(v)
    decreases |ops|
  {
    if ops == [] then (0, 0)
    else
      var (added, copied) := Totals(Apply(LengthSaved, v, ops[0]).value, ops[1..]);
      (Added(v, ops[0]) + added, CopiedBy(v, Needed(ops[0])) + copied)
  }

  /** What is added to the unread bytes where nothing else changes them. */
  lemma AddedShows(v: View, op: Op)
    requires Ok(v)
    ensures var w := Apply(LengthSaved, v, op).value;
            var grows := op.Append? || (op.Push? && |op.bytes| < 0x8000_0000) || (op.MoveRear? && op.distance >= 0);
            && (grows ==> |Unread(w)| == |Unread(v)| + Added(v, op))
            && (op.Push? ==> Added(v, op) == |op.bytes|)
            && (!grows && !op.Push? ==> Added(v, op) == 0)
  {
    hide Grown;
  }

  lemma TotalsOfOne(v: View, op: Op)
    requires Ok(v)
    ensures Totals(v, [op]) == (Added(v, op), CopiedBy(v, Needed(op)))
  {
    hide Added, CopiedBy, Apply;
    var none: seq<Op> := [];
    assert [op][1..] == none;
  }

  /** Totals of a run in two parts add up. */
  lemma {:induction false} TotalsOfParts(v: View, ops: seq<Op>, more: seq<Op>)
    requires Ok(v)
    ensures Run(LengthSaved, v, ops).Some?
    ensures var (added, copied) := Totals(v, ops);
            var (added', copied') := Totals(Run(LengthSaved, v, ops).value, more);
            Totals(v, ops + more) == (added + added', copied + copied')
    decreases |ops|
  {
    hide Added, CopiedBy, Apply;
    if ops == [] {
      assert ops + more == more;
    } else {
      StepIsPaid(v, ops[0]);
      assert (ops + more)[1..] == ops[1..] + more;
      TotalsOfParts(Apply(LengthSaved, v, ops[0]).value, ops[1..], more);
    }
  }

  lemma StepIsPaid(v: View, op: Op)
    requires Ok(v)
    ensures Apply(LengthSaved, v, op).Some?
    ensures var w := Apply(LengthSaved, v, op).value;
            && v.cap + CopiedBy(v, Needed(op)) <= w.cap
            && (w.cap != v.cap ==> w.cap < 2 * (|v.data| + Added(v, op)))
            && |w.data| <= |v.data| + Added(v, op)
  {
    CopyingIsPaid(v, Needed(op));
    hide Grown, AsInt32;
  }

  /** Amortised cost: over any run all the copying done by `resize` is at most the growth of the
      capacity, and a capacity that grew stays below twice the bytes ever put in. */
  lemma {:induction false} GrowthIsAmortised(v: View, ops: seq<Op>)
    requires Ok(v)
    ensures Run(LengthSaved, v, ops).Some?
    ensures var (added, copied) := Totals(v, ops);
            var w := Run(LengthSaved, v, ops).value;
            && v.cap + copied <= w.cap
            && (w.cap != v.cap ==> w.cap < 2 * (|v.data| + added))
    decreases |ops|
  {
    if ops != [] {
      StepIsPaid(v, ops[0]);
      hide Apply, Added, CopiedBy;
      GrowthIsAmortised(Apply(LengthSaved, v, ops[0]).value, ops[1..]);
    }
  }

  /** No operation of the run finds too little room behind the tail. */
  predicate FitsThroughout(v: View, ops: seq<Op>)
    requires Ok(v)
    decreases |ops|
  {
    ops == [] ||
    (&& Needed(ops[0]) <= Useable(v)
     && FitsThroughout(Apply(LengthSaved, v, ops[0]).value, ops[1..]))
  }

  /** By the source's rule a run keeps its pointers in the block exactly when it never grows, and
      then it does what it should. */
  lemma {:induction false} AsWrittenExactlyWhen(v: View, ops: seq<Op>)
    requires Ok(v)
    ensures Run(AsWritten, v, ops).Some? <==> FitsThroughout(v, ops)
    ensures FitsThroughout(v, ops) ==> Run(AsWritten, v, ops) == Run(LengthSaved, v, ops)
    ensures FitsThroughout(v, ops) ==> Run(LengthSaved, v, ops).value.cap == v.cap
    decreases |ops|
  {
    if ops != [] {
      AsWrittenExactlyWhen(Apply(LengthSaved, v, ops[0]).value, ops[1..]);
    }
  }

  /** Operations that never move the head back: a `pop` of 2^31 bytes may. */
  predicate Forward(op: Op) {
    op.Consume? || (op.Pop? && op.count < 0x8000_0000) || (op.MoveFront? && op.distance >= 0)
  }

  lemma HeadOnly(rule: Rule, v: View, op: Op)
    requires Ok(v) && (op.Consume? || op.Pop? || op.MoveFront?)
    ensures Apply(rule, v, op).Some?
    ensures var w := Apply(rule, v, op).value; w == v.(head := w.head) && (Forward(op) ==> v.head <= w.head)
  {
  }

  /** Any run of reads and head moves, in either direction, is undone by one `moveFront` of the
      displacement. */
  lemma {:induction false} RewindRestores(rule: Rule, v: View, ops: seq<Op>)
    requires Ok(v)
    requires forall op | op in ops :: op.Consume? || op.Pop? || op.MoveFront?
    ensures Run(rule, v, ops).Some?
    ensures var w := Run(rule, v, ops).value;
            && w == v.(head := w.head) && MovedFront(w, v.head - w.head) == v
            && ((forall op | op in ops :: Forward(op)) ==> v.head <= w.head)
    decreases |ops|
  {
    if ops != [] {
      assert ops[0] in ops;
      HeadOnly(rule, v, ops[0]);
      hide Apply, Forward;
      RewindRestores(rule, Apply(rule, v, ops[0]).value, ops[1..]);
    }
  }

  // ---- typed round trip ----------------------------------------------------------------------

  function WriteOps(vs: seq<Value>): (ops: seq<Op>)
    ensures |ops| == |vs|
  {
    seq(|vs|, i requires 0 <= i < |vs| => Append(Encode(vs[i])))
  }

  /** One `>>` on a buffer that holds a whole value of the kind. */
  function ReadOne(k: Kind, v: View): (r: Option<(Value, View)>)
    requires Ok(v)
    ensures r.Some? ==> Ok(r.value.1)
  {
    match Decode(k, Unread(v))
    case None => None
    case Some((x, taken)) => Some((x, MovedFront(v, taken)))
  }

  function ReadAll(ks: seq<Kind>, v: View): (r: Option<(seq<Value>, View)>)
    requires Ok(v)
    ensures r.Some? ==> Ok(r.value.1)
    decreases |ks|
  {
    if ks == [] then Some(([], v))
    else match ReadOne(ks[0], v)
      case None => None
      case Some((x, v')) =>
        match ReadAll(ks[1..], v')
        case None => None
        case Some((xs, w)) => Some(([x] + xs, w))
  }

  lemma {:induction false} ReadAllDecodes(ks: seq<Kind>, v: View)
    requires Ok(v)
    ensures ReadAll(ks, v).Some? <==> DecodeAll(ks, Unread(v)).Some?
    ensures ReadAll(ks, v).Some? ==>
              var (xs, taken) := DecodeAll(ks, Unread(v)).value;
              ReadAll(ks, v).value == (xs, MovedFront(v, taken))
    decreases |ks|
  {
    hide Decode;
    if ks != [] && ReadOne(ks[0], v).Some? {
      var (_, v') := ReadOne(ks[0], v).value;
      assert Unread(v') == Unread(v)[Decode(ks[0], Unread(v)).value.1..];
      ReadAllDecodes(ks[1..], v');
    }
  }

  lemma {:induction false} WritesAppendEncodings(rule: Rule, v: View, vs: seq<Value>)
    requires Ok(v)
    ensures Run(rule, v, WriteOps(vs)).Some? <==> rule == LengthSaved || |EncodeAll(vs)| <= Useable(v)
    ensures Run(rule, v, WriteOps(vs)).Some? ==> Unread(Run(rule, v, WriteOps(vs)).value) == Unread(v) + EncodeAll(vs)
    ensures |EncodeAll(vs)| <= Useable(v) ==>
              Run(rule, v, WriteOps(vs)) == Some(v.(data := v.data + EncodeAll(vs)))
    decreases |vs|
  {
    hide Encode;
    if vs != [] {
      assert WriteOps(vs)[1..] == WriteOps(vs[1..]);
      var bytes := Encode(vs[0]);
      var a := Appended(rule, v, bytes);
      if a.Some? {
        assert Unread(a.value) == Unread(v) + bytes;
        WritesAppendEncodings(rule, a.value, vs[1..]);
        assert Unread(v) + bytes + EncodeAll(vs[1..]) == Unread(v) + EncodeAll(vs);
        if |bytes| <= Useable(v) {
          assert v.data + bytes + EncodeAll(vs[1..]) == v.data + EncodeAll(vs);
        }
      }
    } else {
      assert Unread(v) + [] == Unread(v);
      assert v.data + [] == v.data;
    }
  }

  /** Whatever was unread before and whatever follows, values written come back in order, however
      often the buffer grew. By the source's own rule that holds exactly when the encodings fit. */
  lemma RoundTrip(rule: Rule, v: View, vs: seq<Value>, rest: seq<byte>)
    requires Ok(v) && forall x | x in vs :: Representable(x)
    ensures Run(rule, v, WriteOps(vs)).Some? <==> rule == LengthSaved || |EncodeAll(vs)| <= Useable(v)
    ensures Run(rule, v, WriteOps(vs)).Some? && Appended(rule, Run(rule, v, WriteOps(vs)).value, rest).Some? ==>
              var w := MovedFront(Appended(rule, Run(rule, v, WriteOps(vs)).value, rest).value, |Unread(v)|);
              var r := ReadAll(Kinds(vs), w);
              r.Some? && r.value.0 == vs && Unread(r.value.1) == rest
  {
    hide EncodeAll, Kinds, Representable, WriteOps;
    WritesAppendEncodings(rule, v, vs);
    var u := Run(rule, v, WriteOps(vs));
    if u.Some? && Appended(rule, u.value, rest).Some? {
      ReadBack(Appended(rule, u.value, rest).value, Unread(v), vs, rest);
    }
  }

  lemma ReadBack(v: View, prior: seq<byte>, vs: seq<Value>, rest: seq<byte>)
    requires Ok(v) && Unread(v) == prior + EncodeAll(vs) + rest
    requires forall x | x in vs :: Representable(x)
    ensures var r := ReadAll(Kinds(vs), MovedFront(v, |prior|));
            r.Some? && r.value.0 == vs && Unread(r.value.1) == rest
  {
    hide EncodeAll, DecodeAll, Kinds, Representable;
    var w, bytes := MovedFront(v, |prior|), EncodeAll(vs);
    assert Unread(w) == (prior + bytes + rest)[|prior|..] == bytes + rest;
    DecodeAllEncodeAll(vs, rest);
    ReadAllDecodes(Kinds(vs), w);
    assert (bytes + rest)[|bytes|..] == rest;
  }
}

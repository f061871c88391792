/** The sending side of a connection: `session::collectSendPacket`, `sendIO` and `sended`. */
module Senders {
  import opened Bits
  import opened Options
  import opened Serializers
  import opened Packets
  import PM = PacketModel
  import SP = SendProtocol

  // ---- a completion on values ----------------------------------------------------------------

  /** A `DWORD` counts modulo this. */
  const DWORD: nat := 0x1_0000_0000

  function Total(sizes: seq<nat>): nat {
    if sizes == [] then 0 else sizes[0] + Total(sizes[1..])
  }

  /** `sended`: how many packets are released until `transfer` is used up; `None` when the packets run
      out first, so that the loop goes on with a pointer it has released already. */
  function Settled(transfer: nat, sizes: seq<nat>): (r: Option<nat>)
    ensures r.Some? ==> r.value <= |sizes|
    decreases |sizes|
  {
    if transfer == 0 then Some(0)
    else if sizes == [] then None
    else match Settled((transfer - sizes[0]) % DWORD, sizes[1..])
      case None => None
      case Some(n) => Some(n + 1)
  }

  /** The first `j` packets use up the transfer, as a `DWORD` counts. */
  predicate UsedUpBy(transfer: nat, sizes: seq<nat>, j: nat)
    requires j <= |sizes|
  {
    (transfer - Total(sizes[..j])) % 0x1_0000_0000 == 0
  }

  lemma ModLess(x: int, s: int, y: int)
    ensures ((x - s) % DWORD - y) % DWORD == (x - (s + y)) % DWORD
  {
    var q, r := (x - s) / DWORD, (x - s) % DWORD;
    var q', r' := (r - y) / DWORD, (r - y) % DWORD;
    assert x - (s + y) == (q + q') * DWORD + r';
    DivModUnique(x - (s + y), DWORD, q + q', r');
  }

  lemma UsedUpByRest(transfer: nat, sizes: seq<nat>, j: nat)
    requires 0 < j <= |sizes|
    ensures UsedUpBy(transfer, sizes, j) <==> UsedUpBy((transfer - sizes[0]) % DWORD, sizes[1..], j - 1)
  {
    assert sizes[..j][1..] == sizes[1..][..j - 1];
    ModLess(transfer, sizes[0], Total(sizes[1..][..j - 1]));
  }

  /** The loop ends after the least number of packets that uses up the transfer, and goes astray exactly
      when no number does. */
  lemma {:induction false} SettlesExactlyWhen(transfer: nat, sizes: seq<nat>, n: nat)
    requires transfer < 0x1_0000_0000
    ensures Settled(transfer, sizes) == Some(n) <==>
              n <= |sizes| && UsedUpBy(transfer, sizes, n) && forall j: nat | j < n :: !UsedUpBy(transfer, sizes, j)
    decreases |sizes|
  {
    hide Total;
    UsedUpByNone(transfer, sizes);
    if transfer != 0 && sizes != [] && n > 0 {
      var less := (transfer - sizes[0]) % DWORD;
      SettlesExactlyWhen(less, sizes[1..], n - 1);
      forall j: nat | 0 < j <= |sizes|
        ensures UsedUpBy(transfer, sizes, j) <==> UsedUpBy(less, sizes[1..], j - 1)
      {
        UsedUpByRest(transfer, sizes, j);
      }
      assert forall j: nat | j < n - 1 && n <= |sizes| ::
               UsedUpBy(less, sizes[1..], j) <==> UsedUpBy(transfer, sizes, j + 1);
      hide UsedUpBy;
    }
  }

  lemma UsedUpByNone(transfer: nat, sizes: seq<nat>)
    requires transfer < DWORD
    ensures UsedUpBy(transfer, sizes, 0) <==> transfer == 0
  {
    assert sizes[..0] == [];
  }

  lemma {:induction false} UsedUpSettles(transfer: nat, sizes: seq<nat>, j: nat)
    requires transfer < DWORD && j <= |sizes| && UsedUpBy(transfer, sizes, j)
    ensures Settled(transfer, sizes).Some?
    decreases |sizes|
  {
    UsedUpByNone(transfer, sizes);
    if transfer != 0 && j > 0 {
      UsedUpByRest(transfer, sizes, j);
      UsedUpSettles((transfer - sizes[0]) % DWORD, sizes[1..], j - 1);
    }
  }

  lemma {:induction false} TotalSplits(sizes: seq<nat>, j: nat)
    requires j <= |sizes|
    ensures Total(sizes) == Total(sizes[..j]) + Total(sizes[j..])
    decreases j
  {
    if j == 0 {
      assert sizes[..0] == [] && sizes[0..] == sizes;
    } else {
      TotalSplits(sizes[1..], j - 1);
      assert sizes[..j][1..] == sizes[1..][..j - 1] && sizes[1..][j - 1..] == sizes[j..];
    }
  }

  lemma UsedUpIsTotal(transfer: nat, sizes: seq<nat>, j: nat)
    requires transfer < DWORD && Total(sizes) < DWORD && j <= |sizes|
    ensures UsedUpBy(transfer, sizes, j) <==> Total(sizes[..j]) == transfer
  {
    TotalSplits(sizes, j);
  }

  /** While less than 4 GiB are on the way, every packet is released at most once exactly when the system
      reports the total of the first few; otherwise one is released again and again. */
  lemma SettlesExactlyOnTotals(transfer: nat, sizes: seq<nat>)
    requires transfer < 0x1_0000_0000 && Total(sizes) < 0x1_0000_0000
    ensures Settled(transfer, sizes).Some? <==> exists j :: 0 <= j <= |sizes| && Total(sizes[..j]) == transfer
  {
    hide Total, UsedUpBy;
    if Settled(transfer, sizes).Some? {
      var n := Settled(transfer, sizes).value;
      SettlesExactlyWhen(transfer, sizes, n);
      UsedUpIsTotal(transfer, sizes, n);
    }
    forall j | 0 <= j <= |sizes| && Total(sizes[..j]) == transfer ensures Settled(transfer, sizes).Some? {
      UsedUpIsTotal(transfer, sizes, j);
      UsedUpSettles(transfer, sizes, j);
    }
  }

  /** A send that went out wholly releases every packet of it exactly when the last one is not empty. */
  lemma WholeSendSettlesExactlyWhen(sizes: seq<nat>)
    requires Total(sizes) < 0x1_0000_0000
    ensures Settled(Total(sizes), sizes) == Some(|sizes|) <==> sizes == [] || sizes[|sizes| - 1] > 0
  {
    var n := |sizes|;
    SettlesExactlyWhen(Total(sizes), sizes, n);
    UsedUpIsTotal(Total(sizes), sizes, n);
    assert sizes[..n] == sizes;
    forall j: nat | j < n
      ensures UsedUpBy(Total(sizes), sizes, j) <==> Total(sizes[j..]) == 0
      ensures sizes[n - 1] > 0 ==> Total(sizes[j..]) > 0
    {
      UsedUpIsTotal(Total(sizes), sizes, j);
      TotalSplits(sizes, j);
      LastCounts(sizes[j..]);
    }
    if n > 0 && sizes[n - 1] == 0 {
      assert sizes[n - 1..] == [0];
      TotalOfOne(0);
      assert UsedUpBy(Total(sizes), sizes, n - 1);
    }
  }

  lemma LastCounts(sizes: seq<nat>)
    requires sizes != []
    ensures Total(sizes) >= sizes[|sizes| - 1]
  {
    var n := |sizes| - 1;
    TotalSplits(sizes, n);
    assert sizes[n..] == [sizes[n]];
    TotalOfOne(sizes[n]);
  }

  lemma TotalOfOne(size: nat)
    ensures Total([size]) == size
  {
    var none: seq<nat> := [];
    assert [size][1..] == none && Total(none) == 0;
  }

  /** Six bytes reported of packets of five and seven: the second subtraction passes below 0. */
  lemma ShortSendGoesAstray()
    ensures Settled(6, [5, 7]) == None && Settled(5, [5, 7]) == Some(1) && Settled(12, [5, 7]) == Some(2)
  {
    var none: seq<nat> := [];
    assert [5, 7][1..] == [7] && [7][1..] == none;
    assert Settled(1, [7]) == Settled(DWORD - 6, none) == None;
    assert Settled(7, [7]) == Some(1) && Settled(0, [7]) == Some(0);
  }

  // ---- the class -----------------------------------------------------------------------------

  ghost predicate AllValid(packets: seq<Serializer>)
    reads packets
  {
    forall i | 0 <= i < |packets| :: packets[i].Valid()
  }

  ghost function Sizes(packets: seq<Serializer>): (sizes: seq<nat>)
    requires AllValid(packets)
    reads packets
    ensures |sizes| == |packets|
    ensures forall i | 0 <= i < |packets| :: sizes[i] == packets[i].tailPtr - packets[i].headPtr
  {
    if packets == [] then []
    else
      var size: nat := packets[0].tailPtr - packets[0].headPtr;
      [size] + Sizes(packets[1..])
  }

  class Sender {
    var sendBuffer: seq<Serializer>
    var sendedBuffer: seq<Serializer>
    var sendFlag: bool

    constructor ()
      ensures sendBuffer == sendedBuffer == [] && !sendFlag
    {
      sendBuffer, sendedBuffer, sendFlag := [], [], false;
    }

    method CollectSendPacket(s: Serializer)
      modifies `sendBuffer
      ensures sendBuffer == old(sendBuffer) + [s]
    {
      sendBuffer := sendBuffer + [s];
    }

    /** Posts what waits, unless a send is under way. `posted`: the packets handed to `WSASend`. From 101
        on the source writes behind its array; the model stops there. */
    method SendIO() returns (posted: seq<Serializer>, overrun: bool)
      modifies this
      ensures overrun <==> !old(sendFlag) && |old(sendBuffer)| > 100
      ensures !overrun ==>
                && posted == (if old(sendFlag) then [] else old(sendBuffer))
                && sendBuffer == (if old(sendFlag) then old(sendBuffer) else [])
                && sendedBuffer == old(sendedBuffer) + posted
                && sendFlag == (old(sendFlag) || posted != [])
      ensures overrun ==>
                && posted == [] && sendFlag && sendBuffer == old(sendBuffer)[101..]
                && sendedBuffer == old(sendedBuffer) + old(sendBuffer)[..100]
    {
      if sendFlag {
        return [], false;
      }
      sendFlag := true;
      var packetCount := |sendBuffer|;
      if packetCount == 0 {
        sendFlag := false;
        return [], false;
      }
      var buffer: seq<Serializer> := [];
      ghost var was := sendBuffer;
      for i := 0 to packetCount
        invariant sendFlag && i <= SP.WSABUFS && sendBuffer == was[i..] && buffer == was[..i]
        invariant sendedBuffer == old(sendedBuffer) + was[..i]
      {
        var temp := sendBuffer[0];
        sendBuffer := sendBuffer[1..];
        if i >= SP.WSABUFS {
          return [], true;
        }
        buffer := buffer + [temp];
        sendedBuffer := sendedBuffer + [temp];
      }
      posted, overrun := buffer, false;
    }

    /** Releases the packets of a completed send. The model stops where the source would pop from the
        empty `sendedBuffer` and go on with the pointer it holds. */
    method Sended(transfer: nat, pool: SerializerPool) returns (count: int, astray: bool)
      requires pool.Linked() && transfer < 0x1_0000_0000 && AllValid(sendedBuffer)
      requires forall i | 0 <= i < |sendedBuffer| :: sendedBuffer[i] in pool.world.count
      modifies `sendedBuffer, pool, sendedBuffer`referenceCounter
      ensures pool.Linked()
      ensures match Settled(transfer, old(Sizes(sendedBuffer)))
              case Some(n) =>
                && !astray && count == (if transfer == 0 then -1 else n)
                && sendedBuffer == old(sendedBuffer)[n..]
                && pool.world == PM.ReleaseAll(old(pool.world), old(sendedBuffer)[..n])
              case None =>
                && astray && sendedBuffer == []
                && pool.world == PM.ReleaseAll(old(pool.world), old(sendedBuffer))
    {
      hide SerializerPool.Linked, Serializer.Valid, PM.Step, PM.ReleaseAll, Settled;
      ghost var was, sizes := sendedBuffer, Sizes(sendedBuffer);
      var left: nat := transfer;
      count := 0;
      Ends(pool.world, was, transfer, sizes, 0);
      while left > 0 && sendedBuffer != []
        invariant 0 <= count <= |was| && left < DWORD && sendedBuffer == was[count..]
        invariant pool.Linked() && forall i | 0 <= i < |was| :: was[i] in pool.world.count
        invariant forall i | 0 <= i < |was| :: was[i].Valid() && was[i].tailPtr - was[i].headPtr == sizes[i]
        invariant pool.world == PM.ReleaseAll(old(pool.world), was[..count])
        invariant Settled(transfer, sizes) == Later(Settled(left, sizes[count..]), count)
        invariant transfer > 0 && left == 0 ==> count > 0
        decreases |sendedBuffer|
      {
        SettledNext(left, sizes, count);
        ReleasedNext(old(pool.world), was, count);
        var size := ReleaseFront(pool, was[count]);
        assert size == sizes[count];
        left := (left - size) % DWORD;
        count := count + 1;
      }
      Ends(old(pool.world), was, left, sizes, count);
      astray := left > 0;
      if transfer == 0 {
        count := -1;
      }
    }

    /** `sendedBuffer.pop`, the packet's size, and its release. */
    method ReleaseFront(pool: SerializerPool, ghost first: Serializer) returns (size: nat)
      requires pool.Linked() && sendedBuffer != [] && first == sendedBuffer[0]
      requires first.Valid() && first in pool.world.count
      modifies `sendedBuffer, pool, first`referenceCounter
      ensures pool.Linked() && sendedBuffer == old(sendedBuffer)[1..]
      ensures size == first.tailPtr - first.headPtr
      ensures pool.world == PM.Step(old(pool.world), PM.Release(first))
      ensures old(pool.world.count.Keys) <= pool.world.count.Keys
    {
      var packetBuffer := sendedBuffer[0];
      sendedBuffer := sendedBuffer[1..];
      size := packetBuffer.tailPtr - packetBuffer.headPtr;
      pool.Release(packetBuffer);
    }
  }

  lemma ReleasedNext(w: World, packets: seq<Serializer>, i: nat)
    requires i < |packets|
    ensures PM.ReleaseAll(w, packets[..i + 1]) == PM.Step(PM.ReleaseAll(w, packets[..i]), PM.Release(packets[i]))
  {
    PM.ReleaseOneMore(w, packets[..i], packets[i]);
    assert packets[..i + 1] == packets[..i] + [packets[i]];
  }

  lemma Ends(w: World, packets: seq<Serializer>, left: nat, sizes: seq<nat>, i: nat)
    requires i <= |packets| == |sizes|
    ensures PM.ReleaseAll(w, packets[..0]) == w && packets[0..] == packets == packets[..|packets|] && sizes[0..] == sizes
    ensures left == 0 ==> Settled(left, sizes[i..]) == Some(0)
    ensures left > 0 && i == |sizes| ==> Settled(left, sizes[i..]) == None
    ensures Later(Settled(left, sizes), 0) == Settled(left, sizes)
  {
    assert packets[..0] == [];
    assert i == |sizes| ==> sizes[i..] == [];
  }

  function Later(r: Option<nat>, n: nat): Option<nat> {
    match r
    case None => None
    case Some(m) => Some(n + m)
  }

  lemma SettledNext(left: nat, sizes: seq<nat>, i: nat)
    requires 0 < left && i < |sizes|
    ensures Later(Settled(left, sizes[i..]), i)
         == Later(Settled((left - sizes[i]) % DWORD, sizes[i + 1..]), i + 1)
  {
    assert sizes[i..][1..] == sizes[i + 1..];
  }
}

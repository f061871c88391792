/** The packet handle of `packet.h` over pooled serializers. The pool's ghost field `world` is the state
    of `PacketModel`; `Linked` ties it to the counters and the `buffer` fields, and each method is proved
    to perform the step of the model that bears its name. */
module Packets {
  import opened Bits
  import opened Options
  import opened SerializerModel
  import opened Serializers
  import opened Wire
  import PM = PacketModel

  type World = PM.World<Serializer, Packet>

  function Handle(s: Serializer?): Option<Serializer> {
    if s == null then None else Some(s)
  }

  /** The serializer whose counter a call may change. */
  function Target(s: Serializer?): set<Serializer> {
    if s == null then {} else {s}
  }

  class SerializerPool {
    var free: set<Serializer>
    ghost var world: World

    ghost predicate Linked()
      reads this, world.held.Keys`buffer
      reads world.count.Keys`referenceCounter, world.count.Keys`bufferSize, world.count.Keys`block
    {
      && free == world.pooled && world.pooled !! world.live
      && world.pooled + world.live <= world.count.Keys
      && (forall s | s in world.count :: s.referenceCounter == world.count[s] && s.Owned())
      && (forall p | p in world.held ::
            && Handle(p.buffer) == world.held[p]
            && (p.buffer != null ==> p.buffer in world.count))
    }

    ghost function Blocks(): set<array<byte>>
      reads this, free
    {
      set s | s in free :: s.block
    }

    constructor ()
      ensures Linked() && world == PM.World(map[], {}, {}, map[], map[], [])
    {
      free := {};
      world := PM.World(map[], {}, {}, map[], map[], []);
    }

    /** `ObjectPool::Alloc`: a serializer of the pool if there is one, else a new one. The counter is
        not reset. */
    method Alloc() returns (s: Serializer)
      requires Linked()
      modifies `free
      ensures s in old(free) || (fresh(s) && fresh(s.block) && s.bufferSize == 1024 && s.referenceCounter == 0)
      ensures s.Owned() && free == old(free) - {s}
    {
      if free != {} {
        s :| s in free;
      } else {
        s := new Serializer(1024, AsWritten);
      }
      free := free - {s};
    }

    /** `serializerFree` and `ObjectPool::Free`. */
    method Free(s: Serializer)
      modifies `free
      ensures free == old(free) + {s}
    {
      free := free + {s};
    }

    /** What a worker does with a serializer it needs for itself. */
    method AllocRaw() returns (s: Serializer)
      requires Linked()
      modifies this, free`headPtr, free`tailPtr, free`referenceCounter
      ensures Linked() && s !in old(world.live) && s in world.count && free == old(free) - {s}
      ensures s in old(free) || (fresh(s) && fresh(s.block) && s.bufferSize == 1024)
      ensures s.Valid() && (s.bufferSize >= HEADER_SIZE ==> s.headPtr == s.tailPtr == s.bufferPtr + HEADER_SIZE)
      ensures world == PM.Step(old(world), PM.AllocRaw(s))
      ensures s.referenceCounter == PM.Get(old(world.count), s, 0) + 1
    {
      s := Alloc();
      Packet.ReserveHeader(s);
      world := PM.Step(world, PM.AllocRaw(s));
    }

    /** Another reference for a bare pointer that is passed on. */
    method Retain(s: Serializer)
      requires Linked() && s in world.count
      modifies `world, s`referenceCounter
      ensures Linked() && world == PM.Step(old(world), PM.Retain(s))
      ensures s.referenceCounter == old(s.referenceCounter) + 1
    {
      var c := s.IncReferenceCounter(1);
      world := PM.Step(world, PM.Retain(s));
    }

    /** The end of a bare pointer. */
    method Release(s: Serializer)
      requires Linked() && s in world.count
      modifies this, s`referenceCounter
      ensures Linked() && world == PM.Step(old(world), PM.Release(s))
      ensures s.referenceCounter == old(s.referenceCounter) - 1 && (s.referenceCounter == 0 ==> s in free)
      ensures free <= old(free) + {s}
    {
      var c := s.DecReferenceCounter(1);
      if c == 0 {
        Free(s);
      }
      world := PM.Step(world, PM.Release(s));
    }

    /** The end of a serializer taken for a moment. */
    method Return(s: Serializer, ghost before: World)
      requires Linked() && s in world.count && s !in before.live && world == PM.Step(before, PM.AllocRaw(s))
      modifies this, s`referenceCounter
      ensures Linked() && PM.NothingKept(before, world) && free <= old(free) + {s}
    {
      hide Linked, PM.Step, PM.NothingKept;
      Release(s);
      PM.BorrowedIsReturned(before, s);
    }
  }

  class Packet {
    var buffer: Serializer?

    constructor New(pool: SerializerPool)
      requires pool.Linked()
      modifies pool, pool.free
      ensures pool.Linked() && buffer != null
      ensures PM.WellTyped(old(pool.world), PM.New(this, buffer))
      ensures pool.world == PM.Step(old(pool.world), PM.New(this, buffer))
      ensures buffer.referenceCounter == PM.Get(old(pool.world.count), buffer, 0) + 1
    {
      buffer := null;
      new;
      var s := pool.Alloc();
      ReserveHeader(s);
      buffer := s;
      pool.world := PM.Step(pool.world, PM.New(this, s));
    }

    /** Empties the serializer, leaves room for the header and takes the first reference. */
    static method ReserveHeader(s: Serializer)
      requires s.Owned()
      modifies s`headPtr, s`tailPtr, s`referenceCounter
      ensures s.Valid() && s.referenceCounter == old(s.referenceCounter) + 1
      ensures s.bufferSize >= HEADER_SIZE ==> s.headPtr == s.tailPtr == s.bufferPtr + HEADER_SIZE
    {
      s.Clear();
      var r := s.MoveRear(HEADER_SIZE);
      var f := s.MoveFront(HEADER_SIZE);
      var c := s.IncReferenceCounter(1);
    }

    constructor Copy(pool: SerializerPool, p: Packet)
      requires pool.Linked() && p in pool.world.held && p.buffer != null
      modifies pool`world, p.buffer`referenceCounter
      ensures pool.Linked() && PM.WellTyped(old(pool.world), PM.Copy(this, p))
      ensures pool.world == PM.Step(old(pool.world), PM.Copy(this, p))
      ensures buffer == p.buffer && buffer.referenceCounter == old(p.buffer.referenceCounter) + 1
    {
      buffer := p.buffer;
      new;
      var c := buffer.IncReferenceCounter(1);
      pool.world := PM.Step(pool.world, PM.Copy(this, p));
    }

    /** `packet(serializer*)` takes over the reference the pointer carries. */
    constructor Adopt(pool: SerializerPool, s: Serializer?)
      requires pool.Linked() && (s != null ==> s in pool.world.count)
      modifies pool`world
      ensures pool.Linked() && PM.WellTyped(old(pool.world), PM.Adopt(this, Handle(s)))
      ensures pool.world == PM.Step(old(pool.world), PM.Adopt(this, Handle(s)))
    {
      buffer := s;
      new;
      pool.world := PM.Step(pool.world, PM.Adopt(this, Handle(s)));
    }

    method IncReferenceCounter(pool: SerializerPool, n: int) returns (c: int)
      requires pool.Linked() && this in pool.world.held
      modifies pool`world, Target(buffer)`referenceCounter
      ensures pool.Linked() && pool.world == PM.Step(old(pool.world), PM.Increment(this, n))
      ensures c == if buffer == null then 0 else buffer.referenceCounter
      ensures buffer != null ==> buffer.referenceCounter == old(buffer.referenceCounter) + n
    {
      if buffer == null {
        return 0;
      }
      c := buffer.IncReferenceCounter(n);
      pool.world := PM.Step(pool.world, PM.Increment(this, n));
    }

    method DecReferenceCounter(pool: SerializerPool, n: int) returns (c: int)
      requires pool.Linked() && this in pool.world.held
      modifies pool, this, Target(buffer)`referenceCounter
      ensures pool.Linked() && pool.world == PM.Step(old(pool.world), PM.Decrement(this, n))
      ensures c == if old(buffer) == null then 0 else old(buffer).referenceCounter
      ensures old(buffer) != null ==> old(buffer).referenceCounter == old(buffer.referenceCounter) - n
      ensures old(buffer) != null && c == 0 ==> old(buffer) in pool.free && buffer == null
    {
      if buffer == null {
        return 0;
      }
      assert buffer in pool.world.count && pool.world.held[this] == Some(buffer);
      PM.DecrementSteps(pool.world, this, n);
      hide SerializerPool.Linked, PM.Step, PM.FreeAtZero, PM.Owe, PM.Add;
      c := Lower(pool, buffer, n);
      if c == 0 {
        LetGo(pool, 1 - n);
      } else {
        Settle(pool, buffer, -n);
      }
    }

    method LetGo(pool: SerializerPool, n: int)
      requires pool.Linked() && this in pool.world.held
      requires buffer != null && buffer in pool.world.count && pool.world.count[buffer] == 0
      modifies pool, `buffer
      ensures pool.Linked()
      ensures pool.world
           == PM.Owe(PM.FreeAtZero(old(pool.world), old(buffer)), old(buffer), n)
                .(held := old(pool.world).held[this := None])
    {
      hide SerializerPool.Linked, PM.FreeAtZero, PM.Owe;
      GiveBack(pool, buffer);
      Settle(pool, buffer, n);
      SetBuffer(pool, null);
    }

    static method Lower(pool: SerializerPool, s: Serializer, n: int) returns (c: int)
      requires pool.Linked() && s in pool.world.count
      modifies pool`world, s`referenceCounter
      ensures pool.Linked() && pool.world == PM.Add(old(pool.world), s, -n)
      ensures c == s.referenceCounter == pool.world.count[s]
      ensures pool.world.count.Keys == old(pool.world.count.Keys) && pool.world.held == old(pool.world.held)
    {
      c := s.DecReferenceCounter(n);
      pool.world := PM.Add(pool.world, s, -n);
    }

    static method GiveBack(pool: SerializerPool, s: Serializer)
      requires pool.Linked() && s in pool.world.count && pool.world.count[s] == 0
      modifies pool
      ensures pool.Linked() && pool.world == PM.FreeAtZero(old(pool.world), s)
      ensures pool.world.count == old(pool.world.count) && pool.world.held == old(pool.world.held)
    {
      pool.Free(s);
      pool.world := PM.FreeAtZero(pool.world, s);
    }

    /** Books `n` references of bare pointers. */
    static ghost method Settle(pool: SerializerPool, s: Serializer?, n: int)
      requires pool.Linked()
      modifies pool`world
      ensures pool.Linked() && pool.world == if s == null then old(pool.world) else PM.Owe(old(pool.world), s, n)
      ensures pool.world.count == old(pool.world.count) && pool.world.held == old(pool.world.held)
    {
      if s != null {
        pool.world := PM.Owe(pool.world, s, n);
      }
    }

    /** `if (buffer != nullptr && buffer->decReferenceCounter() == 0) Free(buffer)`. */
    method DropBuffer(pool: SerializerPool)
      requires pool.Linked() && this in pool.world.held
      modifies pool, Target(buffer)`referenceCounter
      ensures pool.Linked() && pool.world == PM.Drop(old(pool.world), Handle(buffer))
      ensures pool.world.count.Keys == old(pool.world.count.Keys) && pool.world.held == old(pool.world.held)
    {
      if buffer != null {
        var down := buffer.DecReferenceCounter(1);
        if down == 0 {
          pool.Free(buffer);
        }
      }
      pool.world := PM.Drop(pool.world, Handle(buffer));
    }

    static method Raise(pool: SerializerPool, s: Serializer)
      requires pool.Linked() && s in pool.world.count
      modifies pool`world, s`referenceCounter
      ensures pool.Linked() && pool.world == PM.Add(old(pool.world), s, 1)
      ensures pool.world.count.Keys == old(pool.world.count.Keys) && pool.world.held == old(pool.world.held)
    {
      var c := s.IncReferenceCounter(1);
      pool.world := PM.Add(pool.world, s, 1);
    }

    method SetBuffer(pool: SerializerPool, s: Serializer?)
      requires pool.Linked() && this in pool.world.held && (s != null ==> s in pool.world.count)
      modifies pool`world, `buffer
      ensures buffer == s
      ensures pool.Linked() && pool.world == old(pool.world).(held := old(pool.world).held[this := Handle(s)])
    {
      buffer := s;
      pool.world := pool.world.(held := pool.world.held[this := Handle(s)]);
    }

    method AssignPacket(pool: SerializerPool, p: Packet)
      requires pool.Linked() && this in pool.world.held && p in pool.world.held && p.buffer != null
      modifies pool, this, Target(buffer)`referenceCounter, p.buffer`referenceCounter
      ensures pool.Linked() && pool.world == PM.Step(old(pool.world), PM.AssignPacket(this, p))
    {
      ghost var w := pool.world;
      assert p.buffer in w.count && w.held[p] == Some(p.buffer) && w.held[this] == Handle(buffer);
      assert PM.Step(w, PM.AssignPacket(this, p))
          == PM.Drop(PM.Add(w, p.buffer, 1), Handle(buffer)).(held := w.held[this := Some(p.buffer)]);
      hide SerializerPool.Linked, PM.Step, PM.Drop, PM.Add;
      Raise(pool, p.buffer);
      DropBuffer(pool);
      SetBuffer(pool, p.buffer);
    }

    /** `operator =(serializer*)` takes over the reference the pointer carries. */
    method AssignRaw(pool: SerializerPool, s: Serializer?)
      requires pool.Linked() && this in pool.world.held && (s != null ==> s in pool.world.count)
      modifies pool, this, Target(buffer)`referenceCounter
      ensures pool.Linked() && pool.world == PM.Step(old(pool.world), PM.AssignRaw(this, Handle(s)))
    {
      hide SerializerPool.Linked, PM.Drop, PM.Owe;
      DropBuffer(pool);
      SetBuffer(pool, s);
      Settle(pool, s, -1);
    }

    /** `~packet()`. A counter below 0 is only reported. */
    method Destroy(pool: SerializerPool) returns (error: bool)
      requires pool.Linked() && this in pool.world.held
      modifies pool, Target(buffer)`referenceCounter
      ensures pool.Linked() && pool.world == PM.Step(old(pool.world), PM.Destroy(this))
      ensures error <==> buffer != null && buffer.referenceCounter < 0
      ensures buffer != null ==> buffer.referenceCounter == old(buffer.referenceCounter) - 1
      ensures buffer != null && buffer.referenceCounter == 0 ==> buffer in pool.free
    {
      error := false;
      if buffer != null {
        var temp := buffer.DecReferenceCounter(1);
        if temp < 0 {
          error := true;
        }
        if temp == 0 {
          pool.Free(buffer);
        }
      }
      pool.world := PM.Step(pool.world, PM.Destroy(this));
    }
  }
}

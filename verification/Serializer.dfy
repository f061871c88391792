/** The growable linear buffer of `serializer.h` and `serializer.cpp`. */
module Serializers {
  import opened Bits
  import opened Options
  import opened Memory
  import opened Codec
  import opened SerializerModel
  import opened Wire

  /** How a call that dereferences the tail pointer ends; `Wild` when that pointer no longer points
      into the block, so that the next access is undefined. */
  datatype Outcome = Done | Wild

  class Serializer {
    const rule: Rule
    var bufferPtr: int         // address of the block
    var bufferSize: nat
    var headPtr: int
    var tailPtr: int
    var block: array<byte>     // memory at [bufferPtr, bufferPtr + bufferSize)
    var referenceCounter: int

    /** The block is there, wherever the cursors point. */
    ghost predicate Owned()
      reads `bufferSize, `block
    {
      1 <= bufferSize == block.Length
    }

    ghost predicate Valid()
      reads `bufferPtr, `bufferSize, `headPtr, `tailPtr, `block
    {
      && Owned()
      && bufferPtr <= headPtr <= tailPtr <= bufferPtr + bufferSize
    }

    ghost function V(): (v: View)
      reads this, block
      requires Valid()
      ensures Ok(v)
    {
      View(bufferSize, headPtr - bufferPtr, block[..tailPtr - bufferPtr])
    }

    constructor (size: nat, rule: Rule)
      requires size >= 1
      ensures Valid() && fresh(block) && V() == View(size, 0, []) && referenceCounter == 0
      ensures this.rule == rule
    {
      this.rule := rule;
      bufferPtr, headPtr, tailPtr := 0, 0, 0;
      bufferSize := size;
      block := new byte[size];
      referenceCounter := 0;
    }

    function Size(): (s: nat)
      reads this, block
      requires Valid()
      ensures s == |Unread(V())|
    {
      tailPtr - headPtr
    }

    function UseableSize(): (s: nat)
      reads this, block
      requires Valid()
      ensures s == Useable(V())
    {
      bufferSize - (tailPtr - bufferPtr)
    }

    /** Also puts cursors that left the block back into it. */
    method Clear()
      requires Owned()
      modifies `headPtr, `tailPtr
      ensures Valid() && V() == View(bufferSize, 0, [])
      ensures headPtr == bufferPtr == tailPtr
    {
      headPtr := bufferPtr;
      tailPtr := bufferPtr;
    }

    method IncReferenceCounter(n: int) returns (c: int)
      modifies `referenceCounter
      ensures c == referenceCounter == old(referenceCounter) + n
    {
      referenceCounter := referenceCounter + n;
      c := referenceCounter;
    }

    method DecReferenceCounter(n: int) returns (c: int)
      modifies `referenceCounter
      ensures c == referenceCounter == old(referenceCounter) - n
    {
      referenceCounter := referenceCounter - n;
      c := referenceCounter;
    }

    // ---- growth ------------------------------------------------------------------------------

    method Allocate(size: nat) returns (at: int, mem: array<byte>)
      ensures fresh(mem) && mem.Length == size
      ensures Separate(bufferPtr, bufferSize, at, size)
    {
      assert Separate(bufferPtr, bufferSize, bufferPtr + bufferSize + 1, size);
      at :| Separate(bufferPtr, bufferSize, at, size);
      mem := new byte[size];
    }

    /** The unread bytes move to the front of a new block. Where the tail ends up is the rule's.
        `moved`: how many bytes were moved. */
    method Resize(size: nat) returns (ghost moved: nat)
      requires Valid() && 1 <= size && Size() <= size
      modifies `bufferPtr, `bufferSize, `headPtr, `tailPtr, `block
      ensures fresh(block) && block.Length == bufferSize == size
      ensures Separate(old(bufferPtr), old(bufferSize), bufferPtr, bufferSize)
      ensures (headPtr, tailPtr) == ResizedPointers(rule, bufferPtr, old(headPtr), old(tailPtr))
      ensures headPtr == bufferPtr && block[..old(Size())] == Unread(old(V()))
      ensures moved == |Unread(old(V()))|
    {
      moved := tailPtr - headPtr;
      var tempPtr, mem := Allocate(size);
      MemMove(mem, 0, block, headPtr - bufferPtr, tailPtr - headPtr);
      match rule {
        case AsWritten =>
          headPtr := tempPtr;
          tailPtr := tempPtr + (tailPtr - headPtr);
        case LengthSaved =>
          var length := tailPtr - headPtr;
          headPtr := tempPtr;
          tailPtr := tempPtr + length;
      }
      bufferSize := size;
      bufferPtr := tempPtr;
      block := mem;
    }

    /** The growth loop in front of every write. */
    method MakeRoom(n: nat) returns (r: Outcome, ghost moved: nat)
      requires Valid()
      modifies `bufferPtr, `bufferSize, `headPtr, `tailPtr, `block
      ensures Owned() && (r == Wild <==> rule == AsWritten && old(UseableSize()) < n)
      ensures r == Done ==> Valid() && V() == Grown(old(V()), n) && (block == old(block) || fresh(block))
      ensures r == Done ==> moved == CopiedBy(old(V()), n)
    {
      r, moved := Done, 0;
      while UseableSize() < n
        invariant Valid() && Grown(V(), n) == Grown(old(V()), n)
        invariant moved + CopiedBy(V(), n) == CopiedBy(old(V()), n)
        invariant block == old(block) || fresh(block)
        invariant rule == AsWritten ==> V() == old(V())
        decreases n - UseableSize()
      {
        ghost var v := V();
        ghost var more := Resize(bufferSize * 2);
        moved := moved + more;
        if !InBlock(bufferPtr, bufferSize, tailPtr) {
          return Wild, moved;
        }
        assert V() == Doubled(v);
      }
    }

    // ---- cursor moves ------------------------------------------------------------------------

    method MoveFront(size: int) returns (offset: int)
      requires Valid()
      modifies `headPtr
      ensures Valid() && V() == MovedFront(old(V()), size)
      ensures offset == FrontMove(old(V()), size) == headPtr - old(headPtr)
      ensures offset == if size >= 0 then Min(size, tailPtr - old(headPtr)) else Max(size, bufferPtr - old(headPtr))
    {
      if size >= 0 {
        offset := Min(size, Size());
      } else {
        offset := Max(size, bufferPtr - headPtr);
      }
      headPtr := headPtr + offset;
    }

    method MoveRear(size: int) returns (offset: int)
      requires Valid()
      modifies `tailPtr
      ensures Valid() && offset == RearMove(old(V()), size) == tailPtr - old(tailPtr)
      ensures offset == if size >= 0 then Min(size, bufferPtr + bufferSize - old(tailPtr))
                        else Max(size, headPtr - old(tailPtr))
      ensures var end := old(tailPtr) - bufferPtr;
              V() == MovedRear(old(V()), size, block[end..end + Max(0, offset)])
    {
      if size >= 0 {
        offset := Min(size, UseableSize());
      } else {
        offset := Max(size, headPtr - tailPtr);
      }
      ghost var end := tailPtr - bufferPtr;
      tailPtr := tailPtr + offset;
      assert offset >= 0 ==> block[..end + offset] == block[..end] + block[end..end + offset];
      assert offset < 0 ==> block[..end + offset] == block[..end][..end + offset];
    }

    // ---- bytes -------------------------------------------------------------------------------

    method Push(data: seq<byte>) returns (r: Outcome, ghost moved: nat)
      requires Valid()
      modifies `bufferPtr, `bufferSize, `headPtr, `tailPtr, `block, block
      ensures Owned()
      ensures r == Wild <==> Pushed(rule, old(V()), data) == None
      ensures r == Done ==> Valid() && Some(V()) == Pushed(rule, old(V()), data)
      ensures r == Done ==> block == old(block) || fresh(block)
      ensures r == Done ==> moved == CopiedBy(old(V()), |data|)
    {
      hide AsInt32, Grown, CopiedBy, Unread;
      r, moved := MakeRoom(|data|);
      if r == Done {
        StoreAndMove(data, AsInt32(|data|));
      }
    }

    method Pop(out: array<byte>, count: nat) returns (taken: nat)
      requires Valid() && out != block && Min(count, Size()) <= out.Length
      modifies `headPtr, out
      ensures Valid() && taken == Min(count, |Unread(old(V()))|)
      ensures out[..] == Splice(old(out[..]), 0, Unread(old(V()))[..taken])
      ensures V() == MovedFront(old(V()), AsInt32(taken))
    {
      taken := Peek(out, count);
      var moved := MoveFront(AsInt32(taken));
    }

    method Peek(out: array<byte>, count: nat) returns (taken: nat)
      requires Valid() && out != block && Min(count, Size()) <= out.Length
      modifies out
      ensures taken == Min(count, |Unread(V())|)
      ensures out[..] == Splice(old(out[..]), 0, Unread(V())[..taken])
    {
      taken := count;
      if Size() < taken {
        taken := Size();
      }
      SliceOfTail(block[..], headPtr - bufferPtr, tailPtr - bufferPtr, taken);
      MemMove(out, 0, block, headPtr - bufferPtr, taken);
    }

    // ---- any operation -----------------------------------------------------------------------

    /** One operation of a run, and how many bytes `resize` moved for it. */
    method Perform(op: Op) returns (r: Outcome, ghost moved: nat)
      requires Valid() && (op.MoveRear? ==> op.memory == block[tailPtr - bufferPtr..])
      modifies `bufferPtr, `bufferSize, `headPtr, `tailPtr, `block, block
      ensures Owned() && (r == Wild <==> Apply(rule, old(V()), op) == None)
      ensures r == Done ==> Valid() && Some(V()) == Apply(rule, old(V()), op)
      ensures r == Done ==> moved == CopiedBy(old(V()), Needed(op))
    {
      hide AsInt32, Grown, Unread, FrontMove, MovedFront, MovedRear;
      r, moved := Done, 0;
      match op {
        case Append(bytes) =>
          r, moved := MakeRoom(|bytes|);
          if r == Done { StoreField(bytes); }
        case Push(bytes) =>
          r, moved := Push(bytes);
        case Consume(count) =>
          var offset := MoveFront(count);
        case Pop(count) =>
          var out := new byte[Min(count, Size())];
          var taken := Pop(out, count);
        case MoveFront(distance) =>
          var offset := MoveFront(distance);
        case MoveRear(distance, memory) =>
          ghost var end, k := tailPtr - bufferPtr, Max(0, RearMove(V(), distance));
          assert block[end..][..k] == block[end..end + k];
          var offset := MoveRear(distance);
        case Clear =>
          Clear();
      }
    }

    // ---- typed values ------------------------------------------------------------------------

    /** `operator <<`. */
    method Write(x: Value) returns (r: Outcome)
      requires Valid() && Representable(x)
      modifies `bufferPtr, `bufferSize, `headPtr, `tailPtr, `block, block
      ensures Owned()
      ensures r == Wild <==> Appended(rule, old(V()), Encode(x)) == None
      ensures r == Done ==> Valid() && Some(V()) == Appended(rule, old(V()), Encode(x))
      ensures r == Done ==> block == old(block) || fresh(block)
    {
      hide IntBytes, Grown, CopiedBy, Representable;
      ghost var moved;
      r, moved := MakeRoom(|Encode(x)|);
      if r == Done {
        match x {
          case Flag(b) =>
            StoreField([if b then 1 else 0]);
          case Number(k, v) =>
            StoreField(IntBytes(k, v));
          case Text(chars) =>
            ghost var data := V().data;
            StoreField(IntBytes(String, |chars|));
            StoreField(chars);
            Reassociate(data, IntBytes(String, |chars|), chars);
        }
      }
    }

    /** One `memmove` to the tail and a `moveRear` by `k`. */
    method StoreAndMove(bytes: seq<byte>, k: int)
      requires Valid() && k <= |bytes| <= UseableSize()
      modifies `tailPtr, block
      ensures Valid() && V() == MovedRear(old(V()), k, bytes[..Max(0, RearMove(old(V()), k))])
    {
      SpliceParts(block[..], tailPtr - bufferPtr, bytes, Max(0, k));
      MemStore(block, tailPtr - bufferPtr, bytes);
      var moved := MoveRear(k);
    }

    /** One `memmove` to the tail and the `moveRear` over it. */
    method StoreField(bytes: seq<byte>)
      requires Valid() && |bytes| <= UseableSize()
      modifies `tailPtr, block
      ensures Valid() && V() == old(V()).(data := old(V()).data + bytes)
    {
      StoreAndMove(bytes, |bytes|);
      assert bytes[..|bytes|] == bytes;
    }

    /** `operator >>`. The value is taken from the memory at the head, whether or not it was written;
        `None` when it does not lie within the block, or a string's length is negative. A value that
        was not written whole leaves the head at the tail or, for a string, behind its length. */
    method Read(k: Kind) returns (r: Option<Value>)
      requires Valid()
      modifies `headPtr
      ensures Valid()
      ensures Decode(k, Unread(old(V()))).Some? ==>
                var (x, taken) := Decode(k, Unread(old(V()))).value;
                r == Some(x) && V() == MovedFront(old(V()), taken)
      ensures Decode(k, Unread(old(V()))).None? ==>
                headPtr == tailPtr || (k == String && r == None && headPtr == old(headPtr) + 4)
    {
      hide IntFrom, Unread;
      ghost var u := Unread(V());
      var field := ReadField(Width(k));
      if field == None {
        return None;
      }
      match k {
        case Bool =>
          r := Some(Flag(field.value[0] != 0));
        case String =>
          var length := IntFrom(String, field.value);
          if 0 <= length && 4 + length <= |u| {
            SliceOfTail(u, 4, |u|, length);
            assert u[..|u|] == u;
            MovedTwice(old(V()), 4, length);
          }
          r := ReadChars(length);
        case _ =>
          r := Some(Number(k, IntFrom(k, field.value)));
      }
    }

    /** One `memmove` from the head and the `moveFront` over it; `None` beyond the block. */
    method ReadField(width: nat) returns (field: Option<seq<byte>>)
      requires Valid()
      modifies `headPtr
      ensures Valid() && (field.Some? ==> |field.value| == width)
      ensures width <= |Unread(old(V()))| ==>
                && field == Some(Unread(old(V()))[..width]) && headPtr == old(headPtr) + width
                && V() == MovedFront(old(V()), width) && Unread(V()) == Unread(old(V()))[width..]
      ensures width > |Unread(old(V()))| ==> headPtr == tailPtr && Unread(V()) == []
    {
      var at := headPtr - bufferPtr;
      field := if at + width <= block.Length then Some(block[at..at + width]) else None;
      SliceOfTail(block[..], at, tailPtr - bufferPtr, width);
      var moved := MoveFront(width);
    }

    method ReadChars(length: int) returns (r: Option<Value>)
      requires Valid()
      modifies `headPtr
      ensures Valid()
      ensures 0 <= length <= |Unread(old(V()))| ==>
                r == Some(Text(Unread(old(V()))[..length])) && V() == MovedFront(old(V()), length)
      ensures !(0 <= length <= |Unread(old(V()))|) ==>
                headPtr == tailPtr || (r == None && headPtr == old(headPtr))
    {
      var start := headPtr - bufferPtr;
      if length < 0 || start + length > block.Length {
        return None;
      }
      r := Some(Text(block[start..start + length]));
      SliceOfTail(block[..], start, tailPtr - bufferPtr, length);
      var moved := MoveFront(length);
    }

    // ---- header and cipher -------------------------------------------------------------------

    /** Writes the header at the start of the block and moves the head back over it. */
    method SetHeader(key: byte)
      requires Valid() && HEADER_SIZE <= bufferSize
      modifies `headPtr, block
      ensures Valid()
      ensures V() == MovedFront(old(V()).(data := Headed(old(V()).data, key)), -5)
    {
      hide CheckSum, Header, Headed, Splice;
      var payloadSize := (tailPtr - bufferPtr) - HEADER_SIZE;
      ghost var mem, tail := block[..], tailPtr - bufferPtr;
      var checkSum := SumRange(block, HEADER_SIZE, Max(0, payloadSize));
      MemStore(block, 0, Header(payloadSize, key, checkSum));
      FrameInPlace(mem, tail, key);
      var moved := MoveFront(-5);
    }

    method Encryption(staticKey: byte)
      requires SpanFits(block[..])
      modifies block
      ensures block[..] == Encrypted(old(block[..]), staticKey)
    {
      hide IntFrom, Enc;
      assert block[..][1..3] == block[1..3];
      EncryptRange(block, CHECKSUM_AT, Max(0, IntFrom(Short, block[1..3]) + 1), block[3], staticKey);
    }

    method Decryption(staticKey: byte) returns (good: bool)
      requires Valid() && |V().data| >= HEADER_SIZE && SpanFits(block[..])
      modifies block
      ensures (block[..], good) == Decrypted(old(block[..]), old(|V().data|), staticKey)
    {
      hide IntFrom, Dec, CheckSum;
      assert block[..][1..3] == block[1..3];
      DecryptRange(block, CHECKSUM_AT, Max(0, IntFrom(Short, block[1..3]) + 1), block[3], staticKey);
      var payloadSize := (tailPtr - bufferPtr) - HEADER_SIZE;
      SubtractRange(block, CHECKSUM_AT, HEADER_SIZE, payloadSize);
      good := block[CHECKSUM_AT] == 0;
    }

    // ---- assignment --------------------------------------------------------------------------

    /** `operator =` from another buffer: capacity, both cursors and every byte of the block. The
        tail is set from the source afterwards, so the rule of `resize` does not matter here. */
    method Assign(s: Serializer)
      requires Valid() && s.Valid() && s != this && s.block != block
      modifies `bufferPtr, `bufferSize, `headPtr, `tailPtr, `block
      ensures Valid() && fresh(block) && V() == s.V() && block[..] == s.block[..]
    {
      Clear();
      ghost var moved := Resize(s.bufferSize);
      MemMove(block, 0, s.block, 0, bufferSize);
      headPtr := bufferPtr + (s.headPtr - s.bufferPtr);
      tailPtr := bufferPtr + (s.tailPtr - s.bufferPtr);
    }
  }

  lemma FrameInPlace(mem: seq<byte>, tail: nat, key: byte)
    requires HEADER_SIZE <= |mem| && tail <= |mem|
    ensures var checkSum := CheckSum(mem[HEADER_SIZE..HEADER_SIZE + Max(0, tail - HEADER_SIZE)]);
            Splice(mem, 0, Header(tail - HEADER_SIZE, key, checkSum))[..tail] == Headed(mem[..tail], key)
  {
    hide CheckSum, Header;
    CheckSumOfNone();
    assert mem[HEADER_SIZE..HEADER_SIZE] == [];
    assert tail >= HEADER_SIZE ==> mem[HEADER_SIZE..tail] == mem[..tail][HEADER_SIZE..];
  }

  lemma SpliceParts(mem: seq<byte>, at: nat, data: seq<byte>, n: int)
    requires at + |data| <= |mem|
    ensures Splice(mem, at, data)[..at] == mem[..at]
    ensures 0 <= n <= |data| ==> Splice(mem, at, data)[at..at + n] == data[..n]
  {
  }

  lemma MovedTwice(v: View, a: nat, b: nat)
    requires Ok(v) && a + b <= |Unread(v)|
    ensures MovedFront(MovedFront(v, a), b) == MovedFront(v, a + b)
  {
  }

  lemma SliceOfTail(mem: seq<byte>, at: nat, tail: nat, len: int)
    requires at <= tail <= |mem|
    ensures 0 <= len <= tail - at ==> mem[..tail][at..][..len] == mem[at..at + len]
  {
  }

  lemma Reassociate(a: seq<byte>, b: seq<byte>, c: seq<byte>)
    ensures (a + b) + c == a + (b + c)
  {
  }

  // ---- the loops over a block ------------------------------------------------------------------

  method EncryptRange(mem: array<byte>, from: nat, len: nat, dynamicKey: byte, staticKey: byte)
    requires from + len <= mem.Length
    modifies mem
    ensures mem[..] == Splice(old(mem[..]), from, Enc(old(mem[from..from + len]), dynamicKey, staticKey, 0, 0, 0))
  {
    hide Enc, Xor8;
    ghost var was, target := mem[..], mem[from..from + len];
    ghost var goal := Enc(target, dynamicKey, staticKey, 0, 0, 0);
    var pP: byte, pE: byte := 0, 0;
    for i := 0 to len
      invariant goal[i..] == Enc(target[i..], dynamicKey, staticKey, i, pP, pE)
      invariant forall j :: 0 <= j < mem.Length ==> mem[j] == if from <= j < from + i then goal[j - from] else was[j]
    {
      EncNext(goal, target, dynamicKey, staticKey, i, pP, pE);
      pP := Xor8(mem[from + i], pP + dynamicKey + 1 + i);
      pE := Xor8(pP, pE + staticKey + 1 + i);
      mem[from + i] := pE;
    }
  }

  method DecryptRange(mem: array<byte>, from: nat, len: nat, dynamicKey: byte, staticKey: byte)
    requires from + len <= mem.Length
    modifies mem
    ensures mem[..] == Splice(old(mem[..]), from, Dec(old(mem[from..from + len]), dynamicKey, staticKey, 0, 0, 0))
  {
    hide Dec, Xor8;
    ghost var was, target := mem[..], mem[from..from + len];
    ghost var goal := Dec(target, dynamicKey, staticKey, 0, 0, 0);
    var pP: byte, pE: byte := 0, 0;
    for i := 0 to len
      invariant goal[i..] == Dec(target[i..], dynamicKey, staticKey, i, pP, pE)
      invariant forall j :: 0 <= j < mem.Length ==> mem[j] == if from <= j < from + i then goal[j - from] else was[j]
    {
      DecNext(goal, target, dynamicKey, staticKey, i, pP, pE);
      var p := Xor8(mem[from + i], pE + staticKey + 1 + i);
      pE := mem[from + i];
      mem[from + i] := Xor8(p, pP + dynamicKey + 1 + i);
      pP := p;
    }
  }

  /** Adds up a range in a `char`. */
  method SumRange(mem: array<byte>, from: nat, len: nat) returns (sum: byte)
    requires from + len <= mem.Length
    ensures sum == CheckSum(mem[from..from + len])
  {
    hide CheckSum;
    CheckSumOfNone();
    assert mem[from..from + 0] == [];
    sum := 0;
    for i := 0 to len
      invariant sum == CheckSum(mem[from..from + i])
    {
      CheckSumSnoc(mem[from..from + i], mem[from + i]);
      assert mem[from..from + i + 1] == mem[from..from + i] + [mem[from + i]];
      sum := AddByte(sum, mem[from + i]);
    }
  }

  /** Takes every byte of a range off the `char` at `at`. */
  method SubtractRange(mem: array<byte>, at: nat, from: nat, len: nat)
    requires at < from && from + len <= mem.Length
    modifies mem
    ensures mem[..] == old(mem[..])[at := SubByte(old(mem[at]), CheckSum(old(mem[from..from + len])))]
  {
    hide CheckSum, AddByte, SubByte;
    ghost var was := mem[..];
    CheckSumOfNone();
    SubByteZero(was[at]);
    assert was[from..from + 0] == [];
    for i := 0 to len
      invariant mem[at] == SubByte(was[at], CheckSum(was[from..from + i]))
      invariant forall j :: 0 <= j < mem.Length && j != at ==> mem[j] == was[j]
    {
      CheckSumSnoc(was[from..from + i], was[from + i]);
      assert was[from..from + i + 1] == was[from..from + i] + [was[from + i]];
      SubByteTwice(was[at], CheckSum(was[from..from + i]), was[from + i]);
      mem[at] := SubByte(mem[at], mem[from + i]);
    }
  }

  lemma SubByteZero(x: byte)
    ensures SubByte(x, 0) == x
  {
  }
}

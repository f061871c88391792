/** The bytes of a packet on the wire: the packed five-byte header of `define.h` (code, size, key, check
    sum), the two-key byte cipher of `serializer.h`, and where payload lies in a fresh packet. */
module Wire {
  import opened Bits
  import opened Codec
  import opened SerializerModel

  const HEADER_SIZE: nat := 5
  const CODE: byte := 0x77
  const CHECKSUM_AT: nat := 4

  // ---- header --------------------------------------------------------------------------------

  /** `+=` on a `char`. */
  function AddByte(x: byte, y: byte): byte {
    (x + y) % 256
  }

  /** `-=` on a `char`. */
  function SubByte(x: byte, y: byte): byte {
    (x as int - y) % 256
  }

  /** A `char` that every byte is added to. */
  function CheckSum(bytes: seq<byte>): byte {
    if bytes == [] then 0 else AddByte(CheckSum(bytes[..|bytes| - 1]), bytes[|bytes| - 1])
  }

  lemma CheckSumSnoc(s: seq<byte>, x: byte)
    ensures CheckSum(s + [x]) == AddByte(CheckSum(s), x)
  {
    assert (s + [x])[..|s|] == s;
  }

  lemma {:induction false} CheckSumAppend(a: seq<byte>, b: seq<byte>)
    ensures CheckSum(a + b) == AddByte(CheckSum(a), CheckSum(b))
    decreases |b|
  {
    if b == [] {
      assert a + b == a;
      assert CheckSum(b) == 0;
    } else {
      hide CheckSum, AddByte;
      var init, last := b[..|b| - 1], b[|b| - 1];
      CheckSumAppend(a, init);
      assert b == init + [last] && a + b == (a + init) + [last];
      CheckSumSnoc(init, last);
      CheckSumSnoc(a + init, last);
      AddByteAssociates(CheckSum(a), CheckSum(init), last);
    }
  }

  lemma ByteCases(x: byte, y: byte)
    ensures AddByte(x, y) == if x + y < 256 then x + y else x + y - 256
    ensures SubByte(x, y) == if x >= y then x - y else x - y + 256
  {
  }

  lemma AddByteAssociates(x: byte, y: byte, z: byte)
    ensures AddByte(AddByte(x, y), z) == AddByte(x, AddByte(y, z))
  {
    hide AddByte;
    ByteCases(x, y);
    ByteCases(y, z);
    ByteCases(AddByte(x, y), z);
    ByteCases(x, AddByte(y, z));
  }

  lemma SubByteTwice(x: byte, y: byte, z: byte)
    ensures SubByte(SubByte(x, y), z) == SubByte(x, AddByte(y, z))
  {
    hide AddByte, SubByte;
    ByteCases(x, y);
    ByteCases(y, z);
    ByteCases(SubByte(x, y), z);
    ByteCases(x, AddByte(y, z));
  }

  lemma AddByteCancels(x: byte, y: byte, y': byte, z: byte)
    ensures AddByte(AddByte(x, y), z) == AddByte(AddByte(x, y'), z) <==> y == y'
  {
  }

  lemma CheckSumOfNone()
    ensures CheckSum([]) == 0
  {
  }

  lemma CheckSumOfOne(x: byte)
    ensures CheckSum([x]) == x
  {
    CheckSumSnoc([], x);
    assert [] + [x] == [x];
  }

  /** One changed byte always shows in the check sum. */
  lemma ChangedByteShows(bytes: seq<byte>, i: nat, x: byte)
    requires i < |bytes|
    ensures CheckSum(bytes[i := x]) == CheckSum(bytes) <==> x == bytes[i]
  {
    hide CheckSum;
    var a, b := bytes[..i], bytes[i + 1..];
    assert bytes == (a + [bytes[i]]) + b && bytes[i := x] == (a + [x]) + b;
    CheckSumAppend(a + [bytes[i]], b);
    CheckSumAppend(a + [x], b);
    CheckSumAppend(a, [bytes[i]]);
    CheckSumAppend(a, [x]);
    CheckSumOfOne(bytes[i]);
    CheckSumOfOne(x);
    AddByteCancels(CheckSum(a), bytes[i], x, CheckSum(b));
  }

  /** The payload size travels as a `short`. */
  function Header(payloadSize: int, key: byte, checkSum: byte): (h: seq<byte>)
    ensures |h| == HEADER_SIZE
  {
    [CODE] + IntBytes(Short, payloadSize) + [key, checkSum]
  }

  function Frame(payload: seq<byte>, key: byte): (f: seq<byte>)
    ensures |f| == HEADER_SIZE + |payload|
  {
    Header(|payload|, key, CheckSum(payload)) + payload
  }

  /** `setHeader` on the bytes up to the tail: the frame of the payload; and if the tail lies in the
      header room, the part in front of it of a header with a negative size. */
  function Headed(data: seq<byte>, key: byte): (r: seq<byte>)
    ensures |r| == |data|
  {
    if |data| >= HEADER_SIZE then Frame(data[HEADER_SIZE..], key)
    else Header(|data| - HEADER_SIZE, key, 0)[..|data|]
  }

  function SizeField(mem: seq<byte>): int
    requires |mem| >= HEADER_SIZE
  {
    IntFrom(Short, mem[1..3])
  }

  function KeyField(mem: seq<byte>): byte
    requires |mem| >= HEADER_SIZE
  {
    mem[3]
  }

  lemma FrameFields(payload: seq<byte>, key: byte)
    ensures var f := Frame(payload, key);
            && KeyField(f) == key && f[CHECKSUM_AT] == CheckSum(payload) && f[HEADER_SIZE..] == payload
            && SizeField(f) <= |payload|
            && (SizeField(f) == |payload| <==> |payload| < 0x8000)
  {
    hide IntFrom, IntBytes, CheckSum;
    var size, sum := IntBytes(Short, |payload|), CheckSum(payload);
    var f := Frame(payload, key);
    assert f == [CODE] + size + [key, sum] + payload;
    Layout(size, key, sum, payload);
    ShortField(|payload|);
  }

  lemma Layout(size: seq<byte>, key: byte, sum: byte, payload: seq<byte>)
    requires |size| == 2
    ensures var f := [CODE] + size + [key, sum] + payload;
            f[1..3] == size && f[3] == key && f[CHECKSUM_AT] == sum && f[HEADER_SIZE..] == payload
  {
  }

  /** A size that passes through a `short` comes back, or comes back too small. */
  lemma ShortField(n: nat)
    ensures var s := IntFrom(Short, IntBytes(Short, n)); s <= n && (s == n <==> n < 0x8000)
  {
    FromToBytes(n, 2);
    assert Pow256(2) == 0x1_0000;
  }

  // ---- cipher --------------------------------------------------------------------------------

  /** `encryption`: `p` chains the once-masked bytes, `e` the twice-masked ones. */
  function Enc(t: seq<byte>, dynamicKey: byte, staticKey: byte, i: nat, p: byte, e: byte): (r: seq<byte>)
    ensures |r| == |t|
  {
    if t == [] then []
    else
      var p' := Xor8(t[0], p + dynamicKey + 1 + i);
      var e' := Xor8(p', e + staticKey + 1 + i);
      [e'] + Enc(t[1..], dynamicKey, staticKey, i + 1, p', e')
  }

  /** `decryption`, without the check sum. */
  function Dec(t: seq<byte>, dynamicKey: byte, staticKey: byte, i: nat, p: byte, e: byte): (r: seq<byte>)
    ensures |r| == |t|
  {
    if t == [] then []
    else
      var p' := Xor8(t[0], e + staticKey + 1 + i);
      [Xor8(p', p + dynamicKey + 1 + i)] + Dec(t[1..], dynamicKey, staticKey, i + 1, p', t[0])
  }

  lemma {:induction false} DecEnc(t: seq<byte>, dk: byte, sk: byte, i: nat, p: byte, e: byte)
    ensures Dec(Enc(t, dk, sk, i, p, e), dk, sk, i, p, e) == t
    decreases |t|
  {
    if t != [] {
      var p' := Xor8(t[0], p + dk + 1 + i);
      var e' := Xor8(p', e + sk + 1 + i);
      Xor8Cancels(t[0], p + dk + 1 + i);
      Xor8Cancels(p', e + sk + 1 + i);
      DecEnc(t[1..], dk, sk, i + 1, p', e');
    }
  }

  lemma {:induction false} EncDec(t: seq<byte>, dk: byte, sk: byte, i: nat, p: byte, e: byte)
    ensures Enc(Dec(t, dk, sk, i, p, e), dk, sk, i, p, e) == t
    decreases |t|
  {
    if t != [] {
      var p' := Xor8(t[0], e + sk + 1 + i);
      Xor8Cancels(t[0], e + sk + 1 + i);
      Xor8Cancels(p', p + dk + 1 + i);
      EncDec(t[1..], dk, sk, i + 1, p', t[0]);
    }
  }

  /** One round of each loop: the next byte of the result, and the rest of it. */
  lemma EncNext(goal: seq<byte>, t: seq<byte>, dk: byte, sk: byte, i: nat, p: byte, e: byte)
    requires i < |t| == |goal| && goal[i..] == Enc(t[i..], dk, sk, i, p, e)
    ensures var p' := Xor8(t[i], p + dk + 1 + i);
            var e' := Xor8(p', e + sk + 1 + i);
            goal[i] == e' && goal[i + 1..] == Enc(t[i + 1..], dk, sk, i + 1, p', e')
  {
    hide Xor8;
    assert t[i..][1..] == t[i + 1..] && goal[i..][1..] == goal[i + 1..];
  }

  lemma DecNext(goal: seq<byte>, t: seq<byte>, dk: byte, sk: byte, i: nat, p: byte, e: byte)
    requires i < |t| == |goal| && goal[i..] == Dec(t[i..], dk, sk, i, p, e)
    ensures var p' := Xor8(t[i], e + sk + 1 + i);
            goal[i] == Xor8(p', p + dk + 1 + i) && goal[i + 1..] == Dec(t[i + 1..], dk, sk, i + 1, p', t[i])
  {
    hide Xor8;
    assert t[i..][1..] == t[i + 1..] && goal[i..][1..] == goal[i + 1..];
  }

  /** `inputSize`, none when the size field is negative. */
  function Span(mem: seq<byte>): nat
    requires |mem| >= HEADER_SIZE
  {
    Max(0, SizeField(mem) + 1)
  }

  predicate SpanFits(mem: seq<byte>) {
    |mem| >= HEADER_SIZE && CHECKSUM_AT + Span(mem) <= |mem|
  }

  function Encrypted(mem: seq<byte>, staticKey: byte): (r: seq<byte>)
    requires SpanFits(mem)
    ensures |r| == |mem|
  {
    var end := CHECKSUM_AT + Span(mem);
    mem[..CHECKSUM_AT] + Enc(mem[CHECKSUM_AT..end], KeyField(mem), staticKey, 0, 0, 0) + mem[end..]
  }

  function Deciphered(mem: seq<byte>, staticKey: byte): (r: seq<byte>)
    requires SpanFits(mem)
    ensures |r| == |mem|
  {
    var end := CHECKSUM_AT + Span(mem);
    mem[..CHECKSUM_AT] + Dec(mem[CHECKSUM_AT..end], KeyField(mem), staticKey, 0, 0, 0) + mem[end..]
  }

  /** `decryption` on a block whose tail is at `tail`: the payload is subtracted from the deciphered
      check sum, and the packet is good when nothing is left. */
  function Decrypted(mem: seq<byte>, tail: nat, staticKey: byte): (r: (seq<byte>, bool))
    requires SpanFits(mem) && HEADER_SIZE <= tail <= |mem|
    ensures |r.0| == |mem|
  {
    var d := Deciphered(mem, staticKey);
    var left := SubByte(d[CHECKSUM_AT], CheckSum(d[HEADER_SIZE..tail]));
    (d[CHECKSUM_AT := left], left == 0)
  }

  /** Decryption with the same static key undoes encryption and the other way round, on any block. */
  lemma CipherIsInvolutive(mem: seq<byte>, staticKey: byte)
    requires SpanFits(mem)
    ensures SpanFits(Encrypted(mem, staticKey)) && Deciphered(Encrypted(mem, staticKey), staticKey) == mem
    ensures SpanFits(Deciphered(mem, staticKey)) && Encrypted(Deciphered(mem, staticKey), staticKey) == mem
  {
    hide IntFrom, Enc, Dec;
    var end := CHECKSUM_AT + Span(mem);
    var t, dk := mem[CHECKSUM_AT..end], KeyField(mem);
    var c, d := Encrypted(mem, staticKey), Deciphered(mem, staticKey);
    assert c[1..3] == mem[1..3] && d[1..3] == mem[1..3];
    assert c[CHECKSUM_AT..end] == Enc(t, dk, staticKey, 0, 0, 0);
    assert d[CHECKSUM_AT..end] == Dec(t, dk, staticKey, 0, 0, 0);
    DecEnc(t, dk, staticKey, 0, 0, 0);
    EncDec(t, dk, staticKey, 0, 0, 0);
    assert mem == mem[..CHECKSUM_AT] + t + mem[end..];
  }

  function Sent(payload: seq<byte>, key: byte, staticKey: byte): (f: seq<byte>)
    ensures |f| == HEADER_SIZE + |payload|
  {
    FrameFields(payload, key);
    Encrypted(Frame(payload, key), staticKey)
  }

  /** Whatever is sent is accepted and gives back its payload, for every payload, of any length, and
      every pair of keys; the check sum byte is left at 0. */
  lemma WireRoundTrip(payload: seq<byte>, key: byte, staticKey: byte)
    ensures SpanFits(Sent(payload, key, staticKey))
    ensures var (mem, good) := Decrypted(Sent(payload, key, staticKey), HEADER_SIZE + |payload|, staticKey);
            good && mem == Frame(payload, key)[CHECKSUM_AT := 0]
    ensures Decrypted(Sent(payload, key, staticKey), HEADER_SIZE + |payload|, staticKey).0[HEADER_SIZE..] == payload
  {
    hide Frame, Encrypted, Deciphered, SizeField, KeyField, CheckSum;
    FrameFields(payload, key);
    CipherIsInvolutive(Frame(payload, key), staticKey);
    assert Frame(payload, key)[HEADER_SIZE..HEADER_SIZE + |payload|] == payload;
  }

  lemma ChangedTail(f: seq<byte>, at: nat, i: nat, x: byte)
    requires at + i < |f|
    ensures f[at + i := x][at..|f|] == f[at..][i := x]
  {
  }

  /** A block that deciphers to a frame with one payload byte changed is refused. */
  lemma ChangedByteIsRefused(payload: seq<byte>, key: byte, staticKey: byte, mem: seq<byte>, i: nat, x: byte)
    requires i < |payload| && x != payload[i]
    ensures SpanFits(mem) && Deciphered(mem, staticKey) == Frame(payload, key)[HEADER_SIZE + i := x] ==>
              !Decrypted(mem, |mem|, staticKey).1
  {
    hide Frame, Deciphered, SpanFits, CheckSum;
    FrameFields(payload, key);
    ChangedByteShows(payload, i, x);
    ChangedTail(Frame(payload, key), HEADER_SIZE, i, x);
  }

  /** The size field is outside the cipher, so the receiver can frame before it deciphers; it tells the
      payload size exactly up to 32767 bytes. */
  lemma SentSizeField(payload: seq<byte>, key: byte, staticKey: byte)
    ensures SizeField(Sent(payload, key, staticKey)) == |payload| <==> |payload| < 0x8000
  {
    FrameFields(payload, key);
    var f := Frame(payload, key);
    assert Encrypted(f, staticKey)[1..3] == f[1..3];
  }

  // ---- payload placement ---------------------------------------------------------------------

  /** On a fresh packet, which has its cursors behind the header room, the bytes from `getPayload()` to
      the tail are the encodings of what was written, and the header room is untouched, exactly when
      nothing grew: a growth compacts the header room away, or by the source's rule loses the tail. */
  lemma PayloadPlacement(rule: Rule, v: View, vs: seq<Value>)
    requires Ok(v) && v.head == |v.data| == HEADER_SIZE
    ensures var r := Run(rule, v, WriteOps(vs));
            (|EncodeAll(vs)| <= v.cap - HEADER_SIZE <==>
               (r.Some? && |r.value.data| >= HEADER_SIZE && r.value.data[..HEADER_SIZE] == v.data
                && r.value.data[HEADER_SIZE..] == EncodeAll(vs)))
  {
    WritesAppendEncodings(rule, v, vs);
    if |EncodeAll(vs)| <= v.cap - HEADER_SIZE {
      assert (v.data + EncodeAll(vs))[HEADER_SIZE..] == EncodeAll(vs);
    } else {
      GrowthCompacts(rule, v, vs);
    }
  }

  /** Once a run of writes has grown, the unread bytes start at the front of the block. */
  lemma {:induction false} GrowthCompacts(rule: Rule, v: View, vs: seq<Value>)
    requires Ok(v) && (|EncodeAll(vs)| > Useable(v) || v.head == 0)
    ensures Run(rule, v, WriteOps(vs)).Some? ==> Run(rule, v, WriteOps(vs)).value.head == 0
    decreases |vs|
  {
    if vs != [] {
      var a := Appended(rule, v, Encode(vs[0]));
      GrownHead(v, |Encode(vs[0])|);
      assert WriteOps(vs)[1..] == WriteOps(vs[1..]);
      if a.Some? {
        GrowthCompacts(rule, a.value, vs[1..]);
      }
    }
  }

  lemma {:induction false} GrownHead(v: View, n: nat)
    requires Ok(v)
    ensures Grown(v, n).head == if n <= Useable(v) then v.head else 0
    decreases n - Useable(v)
  {
    if n > Useable(v) {
      GrownHead(Doubled(v), n);
    }
  }
}

/** The packet on the wire byte by byte, with the numbers written out: header, check sum, how far the
    cipher reaches and what it makes of each byte. */
module WireFormat {
  import opened Bits
  import opened Codec
  import opened CodecTable
  import opened Wire
  import opened WireChanges

  // ---- header and check sum ------------------------------------------------------------------

  lemma HeaderBytes(payloadSize: int, key: byte, checkSum: byte)
    ensures Header(payloadSize, key, checkSum) ==
              [0x77, payloadSize % 0x100, payloadSize / 0x100 % 0x100, key, checkSum]
  {
    BytesListed(payloadSize);
    hide ToBytes;
  }

  /** The size field is the number from -32768 to 32767 that agrees with bytes 1 and 2. */
  lemma SizeFieldIs(mem: seq<byte>)
    requires |mem| >= 5
    ensures -0x8000 <= SizeField(mem) < 0x8000
    ensures (SizeField(mem) - (mem[1] as int + 0x100 * mem[2] as int)) % 0x1_0000 == 0
  {
    var field := mem[1..3];
    FieldRead(Short, field);
    hide IntFrom;
    assert field == [mem[1], mem[2]];
    LowFirstOfTwo(mem[1], mem[2]);
  }

  lemma LowFirstOfTwo(a: byte, b: byte)
    ensures LowFirst([a, b]) == a as int + 0x100 * b as int
  {
    var none: seq<byte> := [];
    assert [a, b][1..] == [b] && [b][1..] == none;
    assert LowFirst(none) == 0;
    assert LowFirst([b]) == b;
  }

  function Sum(bytes: seq<byte>): nat {
    if bytes == [] then 0 else Sum(bytes[..|bytes| - 1]) + bytes[|bytes| - 1]
  }

  lemma {:induction false} CheckSumIsSum(bytes: seq<byte>)
    ensures CheckSum(bytes) == Sum(bytes) % 0x100
    decreases |bytes|
  {
    if bytes != [] {
      var init, last := bytes[..|bytes| - 1], bytes[|bytes| - 1];
      CheckSumIsSum(init);
      ByteCases(CheckSum(init), last);
      var q := Sum(init) / 0x100;
      var carry := if CheckSum(init) + last < 0x100 then 0 else 1;
      DivModUnique(Sum(init) + last, 0x100, q + carry, AddByte(CheckSum(init), last));
    }
  }

  lemma FrameBytes(payload: seq<byte>, key: byte)
    ensures var n := |payload|;
            Frame(payload, key) == [0x77, n % 0x100, n / 0x100 % 0x100, key, Sum(payload) % 0x100] + payload
  {
    HeaderBytes(|payload|, key, CheckSum(payload));
    CheckSumIsSum(payload);
    hide Header, CheckSum;
  }

  /** What `setHeader` makes of the bytes up to the tail, also when the tail is in the header room. */
  lemma HeadedBytes(data: seq<byte>, key: byte)
    ensures var n := |data| - 5;
            Headed(data, key) ==
              if n >= 0
              then [0x77, n % 0x100, n / 0x100 % 0x100, key, Sum(data[5..]) % 0x100] + data[5..]
              else [0x77, n % 0x100, n / 0x100 % 0x100, key, 0][..|data|]
  {
    hide Frame, Header, Sum;
    HeaderBytes(|data| - 5, key, 0);
    if |data| >= 5 { FrameBytes(data[5..], key); }
  }

  // ---- cipher --------------------------------------------------------------------------------

  /** Each enciphered byte from its own plain byte and the two enciphered bytes before it. */
  lemma {:induction false} EncAt(t: seq<byte>, dk: byte, sk: byte, i: nat, p: byte, e: byte, j: nat)
    requires j < |t|
    ensures var r := Enc(t, dk, sk, i, p, e);
            var before := if j == 0 then e else r[j - 1];
            var once := if j == 0 then p else Xor8(r[j - 1], (if j == 1 then e else r[j - 2]) + sk + i + j);
            r[j] == Xor8(Xor8(t[j], once + dk + 1 + i + j), before + sk + 1 + i + j)
    decreases |t|
  {
    hide Xor8;
    if j > 0 {
      var p' := Xor8(t[0], p + dk + 1 + i);
      var e' := Xor8(p', e + sk + 1 + i);
      var r, more := Enc(t, dk, sk, i, p, e), Enc(t[1..], dk, sk, i + 1, p', e');
      assert r == [e'] + more;
      EncAt(t[1..], dk, sk, i + 1, p', e', j - 1);
      Xor8Cancels(p', e + sk + 1 + i);
      hide Enc;
    }
  }

  /** Byte `k` of an enciphered block `w`: from the check sum to the end the size field tells it is the
      plain byte under two masks, anywhere else the plain byte. In front of the check sum the wire counts
      as 0. */
  predicate Masked(plain: seq<byte>, w: seq<byte>, size: int, key: byte, staticKey: byte, k: nat)
    requires k < |plain| == |w|
  {
    var before := if k < 5 then 0 else w[k - 1];
    var once := if k < 5 then 0 else Xor8(w[k - 1], (if k < 6 then 0 else w[k - 2]) + staticKey + k - 4);
    w[k] == if 4 <= k <= 4 + size then Xor8(Xor8(plain[k], once + key + k - 3), before + staticKey + k - 3)
            else plain[k]
  }

  lemma EncryptedBytes(mem: seq<byte>, staticKey: byte, k: nat)
    requires SpanFits(mem) && k < |mem|
    ensures Masked(mem, Encrypted(mem, staticKey), SizeField(mem), mem[3], staticKey, k)
  {
    hide Enc, IntFrom, Xor8;
    var end := CHECKSUM_AT + Span(mem);
    var t := mem[4..end];
    if 4 <= k < end {
      EncAt(t, mem[3], staticKey, 0, 0, 0, k - 4);
    }
  }

  /** Decryption, likewise: both masks are made of bytes of the wire. */
  lemma DecipheredBytes(mem: seq<byte>, staticKey: byte, k: nat)
    requires SpanFits(mem) && k < |mem|
    ensures var before := if k < 5 then 0 else mem[k - 1];
            var once := if k < 5 then 0 else Xor8(mem[k - 1], (if k < 6 then 0 else mem[k - 2]) + staticKey + k - 4);
            Deciphered(mem, staticKey)[k] ==
              if 4 <= k <= 4 + SizeField(mem)
              then Xor8(Xor8(mem[k], before + staticKey + k - 3), once + mem[3] + k - 3)
              else mem[k]
  {
    hide Deciphered, IntFrom, Xor8;
    DecipheredIsPlain(mem, staticKey, k);
  }

  /** The verdict: the deciphered check sum is the sum of the deciphered payload modulo 256. */
  lemma Verdict(mem: seq<byte>, tail: nat, staticKey: byte)
    requires SpanFits(mem) && 5 <= tail <= |mem|
    ensures var d, (after, good) := Deciphered(mem, staticKey), Decrypted(mem, tail, staticKey);
            && good == (d[4] == Sum(d[5..tail]) % 0x100)
            && after == d[4 := (d[4] - Sum(d[5..tail])) % 0x100]
  {
    hide Deciphered, CheckSum, Sum;
    var d := Deciphered(mem, staticKey);
    CheckSumIsSum(d[5..tail]);
    var q, r := Sum(d[5..tail]) / 0x100, CheckSum(d[5..tail]);
    ByteCases(d[4], r);
    DivModUnique(d[4] - Sum(d[5..tail]), 0x100, if d[4] >= r then -q else -q - 1, SubByte(d[4], r));
  }

  /** Up to 32767 payload bytes the cipher reaches just to the end of the frame. */
  lemma SpanIsTheFrame(payload: seq<byte>, key: byte)
    ensures |payload| < 0x8000 <==> CHECKSUM_AT + Span(Frame(payload, key)) == |Frame(payload, key)|
  {
    FrameFields(payload, key);
  }

  /** A sent frame: four plain bytes, then check sum and payload under the two masks. From 32768 bytes on
      the field wraps, and what lies behind the wrapped size goes out as it is. */
  lemma SentBytes(payload: seq<byte>, key: byte, staticKey: byte)
    ensures var n, w := |payload|, Sent(payload, key, staticKey);
            var size := if n % 0x1_0000 < 0x8000 then n % 0x1_0000 else n % 0x1_0000 - 0x1_0000;
            var plain := [0x77, n % 0x100, n / 0x100 % 0x100, key, Sum(payload) % 0x100] + payload;
            |w| == n + 5 && forall k | 0 <= k < n + 5 :: Masked(plain, w, size, key, staticKey, k)
  {
    FrameBytes(payload, key);
    var f := Frame(payload, key);
    FrameFields(payload, key);
    SizeFieldIs(f);
    WrappedSize(|payload|, SizeField(f));
    hide Frame, Encrypted, Masked, SizeField, Sum;
    forall k: nat | k < |f| ensures Masked(f, Sent(payload, key, staticKey), SizeField(f), key, staticKey, k) {
      EncryptedBytes(f, staticKey, k);
    }
  }

  lemma WrappedSize(n: nat, s: int)
    requires -0x8000 <= s < 0x8000 && (s - (n % 0x100 + 0x100 * (n / 0x100 % 0x100))) % 0x1_0000 == 0
    ensures s == if n % 0x1_0000 < 0x8000 then n % 0x1_0000 else n % 0x1_0000 - 0x1_0000
  {
    var a, h := n % 0x100, n / 0x100;
    var b, q := h % 0x100, h / 0x100;
    assert n == q * 0x1_0000 + (a + 0x100 * b);
    DivModUnique(n, 0x1_0000, q, a + 0x100 * b);
  }
}

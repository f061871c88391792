/** What one byte changed between sender and receiver does to the deciphered block, and when the check
    sum of `serializer.h` shows it. */
module WireChanges {
  import opened Bits
  import opened Codec
  import opened Wire

  // ---- the cipher byte by byte ---------------------------------------------------------------

  /** Byte `j` after the first of the two masks; `e` is the byte in front of the text. */
  function Once(t: seq<byte>, staticKey: byte, i: nat, e: byte, j: nat): byte
    requires j < |t|
  {
    Xor8(t[j], (if j == 0 then e else t[j - 1]) + staticKey + 1 + i + j)
  }

  /** The recursion in closed form: each deciphered byte depends on three bytes of the text. */
  lemma {:induction false} DecAt(t: seq<byte>, dk: byte, sk: byte, i: nat, p: byte, e: byte, j: nat)
    requires j < |t|
    ensures Dec(t, dk, sk, i, p, e)[j]
         == Xor8(Once(t, sk, i, e, j), (if j == 0 then p else Once(t, sk, i, e, j - 1)) + dk + 1 + i + j)
    decreases |t|
  {
    hide Xor8;
    if j > 0 {
      var p' := Once(t, sk, i, e, 0);
      assert Dec(t, dk, sk, i, p, e)[j] == Dec(t[1..], dk, sk, i + 1, p', t[0])[j - 1];
      DecAt(t[1..], dk, sk, i + 1, p', t[0], j - 1);
      OnceOfRest(t, sk, i, e, j);
      if j > 1 { OnceOfRest(t, sk, i, e, j - 1); }
      hide Dec, Once;
    }
  }

  lemma OnceOfRest(t: seq<byte>, sk: byte, i: nat, e: byte, j: nat)
    requires 0 < j < |t|
    ensures Once(t[1..], sk, i + 1, t[0], j - 1) == Once(t, sk, i, e, j)
  {
    hide Xor8;
  }

  lemma Xor8Differs(x: byte, x': byte, y: int)
    ensures Xor8(x, y) == Xor8(x', y) <==> x == x'
  {
    Xor8Cancels(x, y);
    Xor8Cancels(x', y);
  }

  lemma ChangedText(t: seq<byte>, dk: byte, sk: byte, j: nat, x: byte)
    requires j < |t|
    ensures var d, d' := Dec(t, dk, sk, 0, 0, 0), Dec(t[j := x], dk, sk, 0, 0, 0);
            && (forall k | 0 <= k < |t| && !(j <= k <= j + 2) :: d'[k] == d[k])
            && (d'[j] == d[j] <==> x == t[j])
  {
    hide Dec, Xor8;
    var t' := t[j := x];
    forall k | 0 <= k < |t| && !(j < k <= j + 2)
      ensures k != j ==> Dec(t', dk, sk, 0, 0, 0)[k] == Dec(t, dk, sk, 0, 0, 0)[k]
      ensures k == j ==> (Dec(t', dk, sk, 0, 0, 0)[k] == Dec(t, dk, sk, 0, 0, 0)[k] <==> x == t[j])
    {
      DecAt(t, dk, sk, 0, 0, 0, k);
      DecAt(t', dk, sk, 0, 0, 0, k);
      if k == j {
        Xor8Differs(t[j], x, (if j == 0 then 0 else t[j - 1]) + sk + 1 + j);
        var q := if j == 0 then 0 else Once(t, sk, 0, 0, j - 1);
        Xor8Differs(Once(t, sk, 0, 0, j), Once(t', sk, 0, 0, j), q + dk + 1 + j);
      }
    }
  }

  // ---- a changed byte of a block -------------------------------------------------------------

  function Changed(mem: seq<byte>, i: nat, x: byte): (r: seq<byte>)
    requires CHECKSUM_AT + i < |mem|
    ensures |r| == |mem|
  {
    mem[CHECKSUM_AT + i := x]
  }

  lemma DecipheredAt(mem: seq<byte>, staticKey: byte, k: nat)
    requires SpanFits(mem) && k < |mem|
    ensures var end := CHECKSUM_AT + Span(mem);
            Deciphered(mem, staticKey)[k] ==
              if CHECKSUM_AT <= k < end
              then Dec(mem[CHECKSUM_AT..end], KeyField(mem), staticKey, 0, 0, 0)[k - CHECKSUM_AT]
              else mem[k]
  {
    hide Dec, IntFrom;
  }

  /** A changed byte on the wire stays framed; it changes its own byte of the plain text and at most the
      two behind it, and its own exactly when it differs. */
  lemma ChangedOnTheWire(mem: seq<byte>, staticKey: byte, i: nat, x: byte)
    requires SpanFits(mem) && i < Span(mem)
    ensures var mem' := Changed(mem, i, x);
            && SpanFits(mem') && Span(mem') == Span(mem)
            && var d, d' := Deciphered(mem, staticKey), Deciphered(mem', staticKey);
            && (forall k | 0 <= k < |mem| && !(i <= k - CHECKSUM_AT <= i + 2 && k - CHECKSUM_AT < Span(mem)) ::
                  d'[k] == d[k])
            && (d'[CHECKSUM_AT + i] == d[CHECKSUM_AT + i] <==> x == mem[CHECKSUM_AT + i])
  {
    hide Dec, IntFrom, Deciphered;
    var mem' := Changed(mem, i, x);
    assert mem'[1..3] == mem[1..3];
    var end := CHECKSUM_AT + Span(mem);
    var t := mem[CHECKSUM_AT..end];
    assert mem'[CHECKSUM_AT..end] == t[i := x];
    ChangedText(t, KeyField(mem), staticKey, i, x);
    forall k | 0 <= k < |mem|
      ensures !(i <= k - CHECKSUM_AT <= i + 2 && k - CHECKSUM_AT < Span(mem)) ==>
                Deciphered(mem', staticKey)[k] == Deciphered(mem, staticKey)[k]
    {
      DecipheredAt(mem, staticKey, k);
      DecipheredAt(mem', staticKey, k);
    }
    DecipheredAt(mem, staticKey, CHECKSUM_AT + i);
    DecipheredAt(mem', staticKey, CHECKSUM_AT + i);
  }

  // ---- when the check sum shows it -----------------------------------------------------------

  /** What the check sum byte is over the payload bytes that a change at `i` can reach. */
  function Reached(d: seq<byte>, tail: nat, i: nat): byte
    requires HEADER_SIZE <= tail <= |d|
  {
    SubByte(d[CHECKSUM_AT], CheckSum(d[Min(Max(HEADER_SIZE, CHECKSUM_AT + i), tail)..Min(CHECKSUM_AT + i + 3, tail)]))
  }

  lemma CheckSumInThree(d: seq<byte>, from: nat, lo: nat, hi: nat, to: nat)
    requires from <= lo <= hi <= to <= |d|
    ensures CheckSum(d[from..to]) == AddByte(CheckSum(d[from..lo]), AddByte(CheckSum(d[lo..hi]), CheckSum(d[hi..to])))
  {
    hide CheckSum, AddByte;
    var front, mid, back := d[from..lo], d[lo..hi], d[hi..to];
    CheckSumAppend(front, mid + back);
    CheckSumAppend(mid, back);
    assert d[from..to] == front + (mid + back);
  }

  lemma SumsCompare(c: byte, c': byte, front: byte, mid: byte, mid': byte, back: byte)
    requires SubByte(c, AddByte(front, AddByte(mid, back))) == 0
    ensures SubByte(c', AddByte(front, AddByte(mid', back))) == 0 <==> SubByte(c', mid') == SubByte(c, mid)
  {
    hide AddByte, SubByte;
    MiddleFirst(c, front, mid, back);
    MiddleFirst(c', front, mid', back);
    ByteCases(SubByte(c, mid), AddByte(front, back));
    ByteCases(SubByte(c', mid'), AddByte(front, back));
  }

  lemma MiddleFirst(c: byte, front: byte, mid: byte, back: byte)
    ensures SubByte(c, AddByte(front, AddByte(mid, back))) == SubByte(SubByte(c, mid), AddByte(front, back))
  {
    hide AddByte, SubByte;
    SubByteTwice(c, mid, AddByte(front, back));
    AddByteAssociates(mid, front, back);
    AddByteAssociates(front, mid, back);
    ByteCases(mid, front);
    ByteCases(front, mid);
  }

  lemma ReachedDecides(d: seq<byte>, d': seq<byte>, tail: nat, i: nat)
    requires HEADER_SIZE <= tail <= |d| == |d'|
    requires forall k | 0 <= k < |d| && !(CHECKSUM_AT + i <= k < CHECKSUM_AT + i + 3) :: d'[k] == d[k]
    requires SubByte(d[CHECKSUM_AT], CheckSum(d[HEADER_SIZE..tail])) == 0
    ensures SubByte(d'[CHECKSUM_AT], CheckSum(d'[HEADER_SIZE..tail])) == 0
       <==> Reached(d', tail, i) == Reached(d, tail, i)
  {
    hide CheckSum, AddByte, SubByte;
    var lo, hi := Min(Max(HEADER_SIZE, CHECKSUM_AT + i), tail), Min(CHECKSUM_AT + i + 3, tail);
    CheckSumInThree(d, HEADER_SIZE, lo, hi, tail);
    CheckSumInThree(d', HEADER_SIZE, lo, hi, tail);
    assert d[HEADER_SIZE..lo] == d'[HEADER_SIZE..lo];
    assert d[hi..tail] == d'[hi..tail];
    SumsCompare(d[CHECKSUM_AT], d'[CHECKSUM_AT], CheckSum(d[HEADER_SIZE..lo]),
                CheckSum(d[lo..hi]), CheckSum(d'[lo..hi]), CheckSum(d[hi..tail]));
  }

  /** The wire in front of byte `k + 1`; the cipher starts from 0 in front of the check sum. */
  function Before(mem: seq<byte>, k: int): byte {
    if CHECKSUM_AT <= k < |mem| then mem[k] else 0
  }

  /** Byte `k` of the plain text, from the wire bytes at `k`, `k - 1` and `k - 2` and the two keys. */
  function PlainByte(mem: seq<byte>, staticKey: byte, k: nat): byte
    requires SpanFits(mem) && k < |mem|
  {
    var j := k - CHECKSUM_AT;
    if !(0 <= j < Span(mem)) then mem[k]
    else
      var q := if j == 0 then 0 else Xor8(mem[k - 1], Before(mem, k - 2) + staticKey + j);
      Xor8(Xor8(mem[k], Before(mem, k - 1) + staticKey + 1 + j), q + KeyField(mem) + 1 + j)
  }

  lemma DecipheredIsPlain(mem: seq<byte>, staticKey: byte, k: nat)
    requires SpanFits(mem) && k < |mem|
    ensures Deciphered(mem, staticKey)[k] == PlainByte(mem, staticKey, k)
  {
    hide Dec, IntFrom, Deciphered, Xor8;
    DecipheredAt(mem, staticKey, k);
    var end := CHECKSUM_AT + Span(mem);
    if CHECKSUM_AT <= k < end {
      DecAt(mem[CHECKSUM_AT..end], KeyField(mem), staticKey, 0, 0, 0, k - CHECKSUM_AT);
    }
  }

  function PlainSum(mem: seq<byte>, staticKey: byte, lo: nat, hi: nat): byte
    requires SpanFits(mem) && hi <= |mem|
    decreases hi
  {
    if hi <= lo then 0 else AddByte(PlainSum(mem, staticKey, lo, hi - 1), PlainByte(mem, staticKey, hi - 1))
  }

  lemma {:induction false} CheckSumIsPlainSum(mem: seq<byte>, staticKey: byte, lo: nat, hi: nat)
    requires SpanFits(mem) && lo <= hi <= |mem|
    ensures CheckSum(Deciphered(mem, staticKey)[lo..hi]) == PlainSum(mem, staticKey, lo, hi)
    decreases hi
  {
    hide Deciphered, CheckSum, SpanFits, AddByte, PlainByte;
    var d := Deciphered(mem, staticKey);
    if lo < hi {
      CheckSumIsPlainSum(mem, staticKey, lo, hi - 1);
      DecipheredIsPlain(mem, staticKey, hi - 1);
      CheckSumSnoc(d[lo..hi - 1], d[hi - 1]);
      assert d[lo..hi] == d[lo..hi - 1] + [d[hi - 1]];
    } else {
      assert d[lo..hi] == [];
      CheckSumOfNone();
    }
  }

  /** The check sum byte less the payload bytes a change at `i` can reach, computed from the wire. */
  function ReachedOnWire(mem: seq<byte>, tail: nat, staticKey: byte, i: nat): byte
    requires SpanFits(mem) && HEADER_SIZE <= tail <= |mem|
  {
    SubByte(PlainByte(mem, staticKey, CHECKSUM_AT),
            PlainSum(mem, staticKey, Min(Max(HEADER_SIZE, CHECKSUM_AT + i), tail), Min(CHECKSUM_AT + i + 3, tail)))
  }

  lemma ReachedIsOnWire(mem: seq<byte>, tail: nat, staticKey: byte, i: nat)
    requires SpanFits(mem) && HEADER_SIZE <= tail <= |mem|
    ensures Reached(Deciphered(mem, staticKey), tail, i) == ReachedOnWire(mem, tail, staticKey, i)
  {
    hide Deciphered, CheckSum, SpanFits, SubByte, PlainByte, PlainSum;
    DecipheredIsPlain(mem, staticKey, CHECKSUM_AT);
    CheckSumIsPlainSum(mem, staticKey, Min(Max(HEADER_SIZE, CHECKSUM_AT + i), tail), Min(CHECKSUM_AT + i + 3, tail));
  }

  /** A byte changed in a block that was good leaves it good exactly when check sum and reached payload
      bytes still have the same difference: at most six wire bytes and the two keys decide it. */
  lemma ChangeIsSeenExactlyWhen(mem: seq<byte>, tail: nat, staticKey: byte, i: nat, x: byte)
    requires SpanFits(mem) && i < Span(mem) && HEADER_SIZE <= tail <= |mem|
    requires Decrypted(mem, tail, staticKey).1
    ensures var mem' := Changed(mem, i, x);
            && SpanFits(mem')
            && (Decrypted(mem', tail, staticKey).1 <==>
                  ReachedOnWire(mem', tail, staticKey, i) == ReachedOnWire(mem, tail, staticKey, i))
  {
    ChangeIsSeenInPlainText(mem, tail, staticKey, i, x);
    hide Decrypted, SpanFits, Reached, ReachedOnWire;
    ReachedIsOnWire(mem, tail, staticKey, i);
    ReachedIsOnWire(Changed(mem, i, x), tail, staticKey, i);
  }

  lemma ChangeIsSeenInPlainText(mem: seq<byte>, tail: nat, staticKey: byte, i: nat, x: byte)
    requires SpanFits(mem) && i < Span(mem) && HEADER_SIZE <= tail <= |mem|
    requires Decrypted(mem, tail, staticKey).1
    ensures var mem' := Changed(mem, i, x);
            && SpanFits(mem')
            && (Decrypted(mem', tail, staticKey).1 <==>
                  Reached(Deciphered(mem', staticKey), tail, i) == Reached(Deciphered(mem, staticKey), tail, i))
  {
    ChangedOnTheWire(mem, staticKey, i, x);
    hide Deciphered, CheckSum, Reached, SpanFits;
    ReachedDecides(Deciphered(mem, staticKey), Deciphered(Changed(mem, i, x), staticKey), tail, i);
  }

  /** The last byte in front of the tail cannot change unseen. */
  lemma LastByteIsSeen(mem: seq<byte>, tail: nat, staticKey: byte, x: byte)
    requires SpanFits(mem) && HEADER_SIZE <= tail <= CHECKSUM_AT + Span(mem)
    requires Decrypted(mem, tail, staticKey).1
    ensures var mem' := Changed(mem, tail - HEADER_SIZE, x);
            SpanFits(mem') && (Decrypted(mem', tail, staticKey).1 <==> x == mem[tail - 1])
  {
    var i := tail - HEADER_SIZE;
    ChangeIsSeenInPlainText(mem, tail, staticKey, i, x);
    ChangedOnTheWire(mem, staticKey, i, x);
    hide Deciphered, CheckSum, SpanFits, Decrypted, SubByte;
    var d, d' := Deciphered(mem, staticKey), Deciphered(Changed(mem, i, x), staticKey);
    assert x == mem[tail - 1] ==> Changed(mem, i, x) == mem;
    LastByteReached(d, d', tail);
  }

  lemma LastByteReached(d: seq<byte>, d': seq<byte>, tail: nat)
    requires HEADER_SIZE <= tail <= |d| == |d'|
    requires forall k | 0 <= k < tail - 1 :: d'[k] == d[k]
    ensures Reached(d', tail, tail - HEADER_SIZE) == Reached(d, tail, tail - HEADER_SIZE)
       <==> d'[tail - 1] == d[tail - 1]
  {
    hide CheckSum, SubByte;
    var s, s' := d[Max(HEADER_SIZE, tail - 1)..tail], d'[Max(HEADER_SIZE, tail - 1)..tail];
    SumOfFew(s);
    SumOfFew(s');
    ByteCases(d[CHECKSUM_AT], CheckSum(s));
    ByteCases(d'[CHECKSUM_AT], CheckSum(s'));
  }

  // ---- a flipped top bit ---------------------------------------------------------------------

  function Flip(x: byte): byte {
    if x < 128 then x + 128 else x - 128
  }

  function FlipAt(x: nat, k: nat): nat {
    if x < Pow2(k) then x + Pow2(k) else x - Pow2(k)
  }

  lemma {:induction false} XorFlips(x: nat, y: nat, k: nat)
    requires x < 2 * Pow2(k) && y < 2 * Pow2(k)
    ensures BitXor(FlipAt(x, k), y) == FlipAt(BitXor(x, y), k) == BitXor(x, FlipAt(y, k))
    decreases k
  {
    if k > 0 {
      XorFlips(x / 2, y / 2, k - 1);
      hide BitXor, FlipAt, Pow2;
      FlippedHalves(x, y, k);
    } else {
      assert x < 2 && y < 2;
      assert BitXor(0, 0) == 0;
    }
  }

  lemma FlippedHalves(x: nat, y: nat, k: nat)
    requires k > 0
    requires var h := FlipAt(BitXor(x / 2, y / 2), k - 1);
             BitXor(FlipAt(x / 2, k - 1), y / 2) == h == BitXor(x / 2, FlipAt(y / 2, k - 1))
    ensures BitXor(FlipAt(x, k), y) == FlipAt(BitXor(x, y), k) == BitXor(x, FlipAt(y, k))
  {
    hide BitXor, FlipAt, Pow2;
    FlipHalves(x, k);
    FlipHalves(y, k);
    FlipHalves(BitXor(x, y), k);
    XorHalves(x, y);
    XorHalves(FlipAt(x, k), y);
    XorHalves(x, FlipAt(y, k));
    SameHalves(BitXor(FlipAt(x, k), y), FlipAt(BitXor(x, y), k));
    SameHalves(BitXor(x, FlipAt(y, k)), FlipAt(BitXor(x, y), k));
  }

  lemma FlipHalves(x: nat, k: nat)
    requires k > 0
    ensures FlipAt(x, k) / 2 == FlipAt(x / 2, k - 1) && FlipAt(x, k) % 2 == x % 2
  {
    var p := Pow2(k - 1);
    assert Pow2(k) == 2 * p;
  }

  lemma SameHalves(x: nat, y: nat)
    requires x / 2 == y / 2 && x % 2 == y % 2
    ensures x == y
  {
  }

  lemma Xor8Flips(x: byte, a: byte, c: int)
    ensures Xor8(Flip(x), c) == Flip(Xor8(x, c))
    ensures Xor8(x, Flip(a) + c) == Flip(Xor8(x, a + c))
  {
    assert Pow2(7) == 128;
    XorFlips(x, c % 256, 7);
    XorFlips(x, (a + c) % 256, 7);
    FlipSum(a, c);
    hide BitXor, Pow2;
  }

  lemma FlipSum(a: byte, c: int)
    ensures (Flip(a) + c) % 256 == Flip((a + c) % 256)
  {
    var q, r := (a + c) / 256, (a + c) % 256;
    assert a + c == q * 256 + r;
    var carry := if r < 128 && a >= 128 then -1 else if r >= 128 && a < 128 then 1 else 0;
    DivModUnique(Flip(a) + c, 256, q + carry, Flip(r));
  }

  /** The flip shows in the byte itself and in the one after the next; in between it cancels out. */
  lemma FlippedText(t: seq<byte>, dk: byte, sk: byte, j: nat)
    requires j < |t|
    ensures var d, d' := Dec(t, dk, sk, 0, 0, 0), Dec(t[j := Flip(t[j])], dk, sk, 0, 0, 0);
            && d'[j] == Flip(d[j])
            && (j + 1 < |t| ==> d'[j + 1] == d[j + 1])
            && (j + 2 < |t| ==> d'[j + 2] == Flip(d[j + 2]))
  {
    hide Dec, Flip;
    FlippedByte(t, dk, sk, j, j);
    if j + 1 < |t| { FlippedByte(t, dk, sk, j, j + 1); }
    if j + 2 < |t| { FlippedByte(t, dk, sk, j, j + 2); }
  }

  lemma FlippedByte(t: seq<byte>, dk: byte, sk: byte, j: nat, k: nat)
    requires j <= k <= j + 2 && k < |t|
    ensures var d := Dec(t, dk, sk, 0, 0, 0)[k];
            Dec(t[j := Flip(t[j])], dk, sk, 0, 0, 0)[k] == if k == j + 1 then d else Flip(d)
  {
    hide Dec, Xor8, Once;
    var t' := t[j := Flip(t[j])];
    DecAt(t, dk, sk, 0, 0, 0, k);
    DecAt(t', dk, sk, 0, 0, 0, k);
    OnceFlips(t, sk, j, k);
    if k > 0 { OnceFlips(t, sk, j, k - 1); }
    var o, q := Once(t, sk, 0, 0, k), if k == 0 then 0 else Once(t, sk, 0, 0, k - 1);
    Xor8Flips(o, q, dk + 1 + k);
    Xor8Flips(o, 0, q + dk + 1 + k);
    Xor8Flips(Flip(o), q, dk + 1 + k);
  }

  lemma OnceFlips(t: seq<byte>, sk: byte, j: nat, k: nat)
    requires j < |t| && k < |t|
    ensures var o := Once(t, sk, 0, 0, k);
            Once(t[j := Flip(t[j])], sk, 0, 0, k) == if j <= k <= j + 1 then Flip(o) else o
  {
    hide Xor8;
    var q := if k == 0 then 0 else t[k - 1];
    Xor8Flips(t[k], q, sk + 1 + k);
    Xor8Flips(t[k], 0, q + sk + 1 + k);
  }

  /** On a whole frame a flipped top bit is seen exactly in the last two bytes: anywhere before, the two
      changes it makes to the plain text cancel out in the check sum. */
  lemma FlipIsSeenExactlyWhen(mem: seq<byte>, staticKey: byte, i: nat)
    requires SpanFits(mem) && i < Span(mem)
    requires Decrypted(mem, CHECKSUM_AT + Span(mem), staticKey).1
    ensures var mem' := Changed(mem, i, Flip(mem[CHECKSUM_AT + i]));
            && SpanFits(mem') && Deciphered(mem', staticKey) != Deciphered(mem, staticKey)
            && (Decrypted(mem', CHECKSUM_AT + Span(mem), staticKey).1 <==> i + 2 < Span(mem))
  {
    var x, tail := Flip(mem[CHECKSUM_AT + i]), CHECKSUM_AT + Span(mem);
    var mem' := Changed(mem, i, x);
    ChangeIsSeenInPlainText(mem, tail, staticKey, i, x);
    ChangedOnTheWire(mem, staticKey, i, x);
    FlippedBlock(mem, staticKey, i);
    hide Deciphered, CheckSum, SpanFits, Decrypted, Changed;
    FlipsCancel(Deciphered(mem, staticKey), Deciphered(mem', staticKey), tail, i);
  }

  lemma FlippedBlock(mem: seq<byte>, staticKey: byte, i: nat)
    requires SpanFits(mem) && i < Span(mem)
    ensures var mem' := Changed(mem, i, Flip(mem[CHECKSUM_AT + i]));
            && SpanFits(mem')
            && Flipped(Deciphered(mem, staticKey), Deciphered(mem', staticKey),
                       CHECKSUM_AT + Span(mem), CHECKSUM_AT + i)
  {
    hide Dec, IntFrom, Deciphered;
    var mem' := Changed(mem, i, Flip(mem[CHECKSUM_AT + i]));
    ChangedOnTheWire(mem, staticKey, i, Flip(mem[CHECKSUM_AT + i]));
    assert mem'[1..3] == mem[1..3];
    var end := CHECKSUM_AT + Span(mem);
    var t := mem[CHECKSUM_AT..end];
    assert mem'[CHECKSUM_AT..end] == t[i := Flip(t[i])];
    FlippedText(t, KeyField(mem), staticKey, i);
    forall k | CHECKSUM_AT + i <= k < end && k <= CHECKSUM_AT + i + 2
      ensures var y := Deciphered(mem, staticKey)[k];
              Deciphered(mem', staticKey)[k] == if k == CHECKSUM_AT + i + 1 then y else Flip(y)
    {
      DecipheredAt(mem, staticKey, k);
      DecipheredAt(mem', staticKey, k);
    }
  }

  /** `d'` is `d` with the top bits at `at` and `at + 2` flipped, as far as `end`. */
  ghost predicate Flipped(d: seq<byte>, d': seq<byte>, end: nat, at: nat) {
    && at < end <= |d| == |d'|
    && (forall k | 0 <= k < |d| && k != at && k != at + 2 :: d'[k] == d[k])
    && d'[at] == Flip(d[at])
    && (at + 2 < end ==> d'[at + 2] == Flip(d[at + 2]))
  }

  lemma FlipsCancel(d: seq<byte>, d': seq<byte>, tail: nat, i: nat)
    requires HEADER_SIZE <= tail && Flipped(d, d', tail, CHECKSUM_AT + i)
    ensures Reached(d', tail, i) == Reached(d, tail, i) <==> CHECKSUM_AT + i + 2 < tail
  {
    hide CheckSum;
    var lo, hi := Min(Max(HEADER_SIZE, CHECKSUM_AT + i), tail), Min(CHECKSUM_AT + i + 3, tail);
    var c, c', s, s' := d[CHECKSUM_AT], d'[CHECKSUM_AT], d[lo..hi], d'[lo..hi];
    forall k | 0 <= k < |s| ensures s[k] == d[lo + k] && s'[k] == d'[lo + k] {
    }
    if i == 0 {
      assert c' == Flip(c) && (|s| > 0 ==> s'[0] == s[0]) && (|s| > 1 ==> s'[1] == Flip(s[1]));
      FlipsOfTwo(c, s, s');
    } else {
      assert c' == c && s'[0] == Flip(s[0]) && (|s| > 1 ==> s'[1] == s[1]) && (|s| > 2 ==> s'[2] == Flip(s[2]));
      FlipsOfThree(c, s, s');
    }
  }

  lemma FlipsOfTwo(c: byte, s: seq<byte>, s': seq<byte>)
    requires |s| == |s'| <= 2 && (|s| > 0 ==> s'[0] == s[0]) && (|s| > 1 ==> s'[1] == Flip(s[1]))
    ensures SubByte(Flip(c), CheckSum(s')) == SubByte(c, CheckSum(s)) <==> |s| == 2
  {
    SumOfFew(s);
    SumOfFew(s');
    hide AddByte, SubByte, CheckSum;
    if |s| == 2 { AddFlips(s[0], s[1]); }
    SubFlips(c, CheckSum(s));
    SubFlips(Flip(c), CheckSum(s));
  }

  lemma FlipsOfThree(c: byte, s: seq<byte>, s': seq<byte>)
    requires 1 <= |s| == |s'| <= 3 && s'[0] == Flip(s[0])
    requires (|s| > 1 ==> s'[1] == s[1]) && (|s| > 2 ==> s'[2] == Flip(s[2]))
    ensures SubByte(c, CheckSum(s')) == SubByte(c, CheckSum(s)) <==> |s| == 3
  {
    SumOfFew(s);
    SumOfFew(s');
    hide AddByte, SubByte, CheckSum;
    SubFlips(c, CheckSum(s));
    if |s| > 1 { AddFlips(s[0], s[1]); }
    if |s| > 2 {
      AddFlips(AddByte(s[0], s[1]), s[2]);
      AddFlips(Flip(AddByte(s[0], s[1])), s[2]);
    }
  }

  lemma AddFlips(x: byte, y: byte)
    ensures AddByte(Flip(x), y) == Flip(AddByte(x, y)) == AddByte(x, Flip(y))
    ensures Flip(Flip(x)) == x
  {
    hide AddByte, SubByte;
    ByteCases(x, y);
    ByteCases(Flip(x), y);
    ByteCases(x, Flip(y));
  }

  lemma SubFlips(x: byte, y: byte)
    ensures SubByte(Flip(x), y) == Flip(SubByte(x, y)) == SubByte(x, Flip(y))
  {
    hide AddByte, SubByte;
    ByteCases(x, y);
    ByteCases(Flip(x), y);
    ByteCases(x, Flip(y));
  }

  lemma SumOfFew(s: seq<byte>)
    ensures |s| == 0 ==> CheckSum(s) == 0
    ensures |s| == 1 ==> CheckSum(s) == s[0]
    ensures |s| == 2 ==> CheckSum(s) == AddByte(s[0], s[1])
    ensures |s| == 3 ==> CheckSum(s) == AddByte(AddByte(s[0], s[1]), s[2])
  {
  }
}

/** The kinds one by one: how many bytes each writes and which, and what value each reads. */
module CodecTable {
  import opened Bits
  import opened Options
  import opened Codec

  // ---- what is written -----------------------------------------------------------------------

  /** `x` as a `k` is written as its `width` low bytes, the lowest first. */
  predicate Writes(k: Kind, x: int, width: nat) {
    match width
    case 1 => Encode(Number(k, x)) == [x % 0x100]
    case 2 => Encode(Number(k, x)) == [x % 0x100, x / 0x100 % 0x100]
    case 4 =>
      Encode(Number(k, x)) == [x % 0x100, x / 0x100 % 0x100, x / 0x1_0000 % 0x100, x / 0x100_0000 % 0x100]
    case 8 =>
      Encode(Number(k, x)) ==
        [x % 0x100, x / 0x100 % 0x100, x / 0x1_0000 % 0x100, x / 0x100_0000 % 0x100,
         x / 0x1_0000_0000 % 0x100, x / 0x100_0000_0000 % 0x100,
         x / 0x1_0000_0000_0000 % 0x100, x / 0x100_0000_0000_0000 % 0x100]
    case _ => false
  }

  lemma NumbersWritten(x: int)
    ensures Writes(Char, x, 1) && Writes(UChar, x, 1)
    ensures Writes(WChar, x, 2) && Writes(Short, x, 2) && Writes(UShort, x, 2)
    ensures Writes(Int, x, 4) && Writes(UInt, x, 4) && Writes(Long, x, 4) && Writes(ULong, x, 4)
    ensures Writes(Float, x, 4)
    ensures Writes(LongLong, x, 8) && Writes(ULongLong, x, 8) && Writes(Double, x, 8)
  {
    Powers();
    BytesListed(x);
    hide ToBytes, Pow256;
  }

  lemma Powers()
    ensures Pow256(0) == 1 && Pow256(1) == 0x100 && Pow256(2) == 0x1_0000 && Pow256(3) == 0x100_0000
    ensures Pow256(4) == 0x1_0000_0000 && Pow256(5) == 0x100_0000_0000
    ensures Pow256(6) == 0x1_0000_0000_0000 && Pow256(7) == 0x100_0000_0000_0000
    ensures Pow256(8) == 0x1_0000_0000_0000_0000
  {
    assert Pow256(2) == 256 * Pow256(1);
    assert Pow256(4) == 256 * Pow256(3);
    assert Pow256(6) == 256 * Pow256(5);
  }

  lemma BytesListed(x: int)
    ensures ToBytes(x, 1) == [x % 0x100]
    ensures ToBytes(x, 2) == [x % 0x100, x / 0x100 % 0x100]
    ensures ToBytes(x, 4) == [x % 0x100, x / 0x100 % 0x100, x / 0x1_0000 % 0x100, x / 0x100_0000 % 0x100]
    ensures ToBytes(x, 8) ==
              [x % 0x100, x / 0x100 % 0x100, x / 0x1_0000 % 0x100, x / 0x100_0000 % 0x100,
               x / 0x1_0000_0000 % 0x100, x / 0x100_0000_0000 % 0x100,
               x / 0x1_0000_0000_0000 % 0x100, x / 0x100_0000_0000_0000 % 0x100]
  {
    Powers();
    hide ToBytes, Pow256;
    ByteOf(x, 1, 0);
    ByteOf(x, 2, 0); ByteOf(x, 2, 1);
    ByteOf(x, 4, 0); ByteOf(x, 4, 1); ByteOf(x, 4, 2); ByteOf(x, 4, 3);
    ByteOf(x, 8, 0); ByteOf(x, 8, 1); ByteOf(x, 8, 2); ByteOf(x, 8, 3);
    ByteOf(x, 8, 4); ByteOf(x, 8, 5); ByteOf(x, 8, 6); ByteOf(x, 8, 7);
  }

  lemma OthersWritten(b: bool, chars: seq<byte>)
    ensures Encode(Flag(b)) == if b then [1] else [0]
    ensures var n := |chars|;
            Encode(Text(chars)) == [n % 0x100, n / 0x100 % 0x100, n / 0x1_0000 % 0x100, n / 0x100_0000 % 0x100] + chars
  {
    BytesListed(|chars|);
    hide ToBytes;
  }

  // ---- what is read --------------------------------------------------------------------------

  /** The number a kind of `width` bytes with values from `low` to below `high` reads: the one in that
      range that agrees with the bytes, the lowest first, modulo their number of values. */
  predicate Reads(k: Kind, bytes: seq<byte>, width: nat, low: int, high: int) {
    if |bytes| < width then Decode(k, bytes) == None
    else
      exists x | low <= x < high ::
        Decode(k, bytes) == Some((Number(k, x), width)) && (x - LowFirst(bytes[..width])) % (high - low) == 0
  }

  function LowFirst(bytes: seq<byte>): int {
    if bytes == [] then 0 else bytes[0] + 0x100 * LowFirst(bytes[1..])
  }

  lemma NumbersRead(bytes: seq<byte>)
    ensures Reads(Char, bytes, 1, -0x80, 0x80) && Reads(UChar, bytes, 1, 0, 0x100)
    ensures Reads(WChar, bytes, 2, 0, 0x1_0000)
    ensures Reads(Short, bytes, 2, -0x8000, 0x8000) && Reads(UShort, bytes, 2, 0, 0x1_0000)
    ensures Reads(Int, bytes, 4, -0x8000_0000, 0x8000_0000) && Reads(UInt, bytes, 4, 0, 0x1_0000_0000)
    ensures Reads(Long, bytes, 4, -0x8000_0000, 0x8000_0000) && Reads(ULong, bytes, 4, 0, 0x1_0000_0000)
    ensures Reads(Float, bytes, 4, 0, 0x1_0000_0000)
    ensures Reads(LongLong, bytes, 8, -0x8000_0000_0000_0000, 0x8000_0000_0000_0000)
    ensures Reads(ULongLong, bytes, 8, 0, 0x1_0000_0000_0000_0000)
    ensures Reads(Double, bytes, 8, 0, 0x1_0000_0000_0000_0000)
  {
    hide Reads, Decode;
    NumberRead(Char, bytes, 1, -0x80, 0x80);
    NumberRead(UChar, bytes, 1, 0, 0x100);
    NumberRead(WChar, bytes, 2, 0, 0x1_0000);
    NumberRead(Short, bytes, 2, -0x8000, 0x8000);
    NumberRead(UShort, bytes, 2, 0, 0x1_0000);
    NumberRead(Int, bytes, 4, -0x8000_0000, 0x8000_0000);
    NumberRead(UInt, bytes, 4, 0, 0x1_0000_0000);
    NumberRead(Long, bytes, 4, -0x8000_0000, 0x8000_0000);
    NumberRead(ULong, bytes, 4, 0, 0x1_0000_0000);
    NumberRead(Float, bytes, 4, 0, 0x1_0000_0000);
    NumberRead(LongLong, bytes, 8, -0x8000_0000_0000_0000, 0x8000_0000_0000_0000);
    NumberRead(ULongLong, bytes, 8, 0, 0x1_0000_0000_0000_0000);
    NumberRead(Double, bytes, 8, 0, 0x1_0000_0000_0000_0000);
  }

  lemma NumberRead(k: Kind, bytes: seq<byte>, width: nat, low: int, high: int)
    requires k != Bool && k != String && width == Width(k) && high - low == Modulus(k)
    requires low == if IsSigned(k) then -(Modulus(k) / 2) else 0
    ensures Reads(k, bytes, width, low, high)
  {
    if |bytes| >= width {
      var field, m := bytes[..width], Modulus(k);
      FieldRead(k, field);
      hide FromBytes, ToBytes, Pow256, IntFrom;
      assert Decode(k, bytes) == Some((Number(k, IntFrom(k, field)), width));
    }
  }

  lemma FieldRead(k: Kind, field: seq<byte>)
    requires |field| == Width(k)
    ensures var x, m := IntFrom(k, field), Modulus(k);
            && (x - LowFirst(field)) % m == 0
            && if IsSigned(k) then -(m / 2) <= x < m / 2 else 0 <= x < m
  {
    LowFirstIs(field);
    ToFromBytes(field);
    ModulusIs(k);
    hide FromBytes, ToBytes, Pow256;
    var u, x, m := FromBytes(field), IntFrom(k, field), Modulus(k);
    DivModUnique(x - u, m, if x < u then -1 else 0, 0);
  }

  lemma {:induction false} LowFirstIs(bytes: seq<byte>)
    ensures LowFirst(bytes) == FromBytes(bytes)
  {
    if bytes != [] {
      LowFirstIs(bytes[1..]);
    }
  }

  /** A `bool` is any byte but 0; a string is as long as its first four bytes, read as an `int`, say, and
      is there when that is not negative and so many bytes follow. */
  lemma OthersRead(bytes: seq<byte>)
    ensures Decode(Bool, bytes) == if bytes == [] then None else Some((Flag(bytes[0] != 0), 1))
    ensures |bytes| < 4 ==> Decode(String, bytes) == None
    ensures |bytes| >= 4 ==> exists n :: ReadsText(bytes, n)
  {
    if |bytes| >= 4 {
      FieldRead(String, bytes[..4]);
      hide FromBytes, IntFrom;
      assert ReadsText(bytes, IntFrom(String, bytes[..4]));
    }
  }

  predicate ReadsText(bytes: seq<byte>, n: int)
    requires |bytes| >= 4
  {
    && -0x8000_0000 <= n < 0x8000_0000 && (n - LowFirst(bytes[..4])) % 0x1_0000_0000 == 0
    && Decode(String, bytes) == if 0 <= n <= |bytes| - 4 then Some((Text(bytes[4..4 + n]), 4 + n)) else None
  }

  /** The values of each kind. */
  lemma Ranges(x: int)
    ensures InRange(Char, x) <==> -0x80 <= x < 0x80
    ensures InRange(UChar, x) <==> 0 <= x < 0x100
    ensures InRange(Short, x) <==> -0x8000 <= x < 0x8000
    ensures InRange(UShort, x) <==> 0 <= x < 0x1_0000
    ensures InRange(WChar, x) <==> 0 <= x < 0x1_0000
    ensures InRange(Int, x) <==> -0x8000_0000 <= x < 0x8000_0000
    ensures InRange(UInt, x) <==> 0 <= x < 0x1_0000_0000
    ensures InRange(Long, x) <==> -0x8000_0000 <= x < 0x8000_0000
    ensures InRange(ULong, x) <==> 0 <= x < 0x1_0000_0000
    ensures InRange(LongLong, x) <==> -0x8000_0000_0000_0000 <= x < 0x8000_0000_0000_0000
    ensures InRange(ULongLong, x) <==> 0 <= x < 0x1_0000_0000_0000_0000
  {
  }
}

/** The bytes that the `<<` operators of `serializer.cpp` write and what the `>>` operators make of them.
    Integers are little-endian two's complement; `float` and `double` travel as their bit patterns; a
    string is a four-byte length followed by its characters. Sizes are those of the 64-bit Windows ABI. */
module Codec {
  import opened Bits
  import opened Options

  datatype Kind =
    | Bool | Char | UChar | WChar | Short | UShort | Int | UInt | Long | ULong | LongLong | ULongLong
    | Float | Double | String

  datatype Value =
    | Flag(b: bool)
    | Number(kind: Kind, v: int)
    | Text(chars: seq<byte>)

  /** `sizeof`, and for strings the size of the length field. */
  function Width(k: Kind): (w: nat)
    ensures 1 <= w <= 8
  {
    match k
    case Bool | Char | UChar => 1
    case WChar | Short | UShort => 2
    case Int | UInt | Long | ULong | Float | String => 4
    case LongLong | ULongLong | Double => 8
  }

  predicate IsSigned(k: Kind) {
    k in {Char, Short, Int, Long, LongLong, String}
  }

  function KindOf(v: Value): Kind {
    match v
    case Flag(_) => Bool
    case Number(k, _) => k
    case Text(_) => String
  }

  /** How many values the bytes of the kind can tell apart. */
  function Modulus(k: Kind): (m: nat)
    ensures m >= 256
  {
    match Width(k)
    case 1 => 0x100
    case 2 => 0x1_0000
    case 4 => 0x1_0000_0000
    case _ => 0x1_0000_0000_0000_0000
  }

  predicate InRange(k: Kind, x: int) {
    if IsSigned(k) then 0 <= 2 * x + Modulus(k) < 2 * Modulus(k) else 0 <= x < Modulus(k)
  }

  /** The values a C++ variable of the kind can hold; a string must have an `int` length. */
  predicate Representable(v: Value) {
    match v
    case Flag(_) => true
    case Number(k, x) =>
      && k != Bool && k != String
      && InRange(k, x)
    case Text(chars) => |chars| < 0x8000_0000
  }

  // ---- little-endian integers --------------------------------------------------------------

  /** The low `width` bytes of `x` in two's complement. */
  function ToBytes(x: int, width: nat): (bs: seq<byte>)
    ensures |bs| == width
    decreases width
  {
    if width == 0 then [] else [x % 256] + ToBytes(x / 256, width - 1)
  }

  function FromBytes(bs: seq<byte>): nat {
    if bs == [] then 0 else bs[0] + 256 * FromBytes(bs[1..])
  }

  function Pow256(width: nat): (p: nat)
    ensures p >= 1
  {
    if width == 0 then 1 else 256 * Pow256(width - 1)
  }

  lemma ModulusIs(k: Kind)
    ensures Modulus(k) == Pow256(Width(k))
  {
    assert Pow256(2) == 0x1_0000;
    assert Pow256(4) == 0x1_0000_0000;
    assert Pow256(8) == 0x1_0000_0000 * Pow256(4);
  }

  lemma {:induction false} FromToBytes(x: int, width: nat)
    ensures FromBytes(ToBytes(x, width)) == x % Pow256(width)
    decreases width
  {
    if width > 0 {
      FromToBytes(x / 256, width - 1);
      assert ToBytes(x, width)[1..] == ToBytes(x / 256, width - 1);
      ModTimes256(x, Pow256(width - 1));
    }
  }

  lemma ModTimes256(x: int, p: nat)
    requires p > 0
    ensures x % (256 * p) == x % 256 + 256 * (x / 256 % p)
  {
    var h, b := x / 256, x % 256;
    var q, r := h / p, h % p;
    assert h == q * p + r;
    assert q * (256 * p) == 256 * (q * p);
    DivModUnique(x, 256 * p, q, 256 * r + b);
  }

  lemma {:induction false} ToFromBytes(bs: seq<byte>)
    ensures FromBytes(bs) < Pow256(|bs|)
    ensures ToBytes(FromBytes(bs), |bs|) == bs
  {
    if bs != [] {
      ToFromBytes(bs[1..]);
      assert FromBytes(bs) % 256 == bs[0] && FromBytes(bs) / 256 == FromBytes(bs[1..]);
    }
  }

  lemma {:induction false} ToBytesWraps(x: int, width: nat)
    ensures ToBytes(x - Pow256(width), width) == ToBytes(x, width)
    decreases width
  {
    if width > 0 {
      ToBytesWraps(x / 256, width - 1);
    }
  }

  /** Little-endian: byte `i` is the `i`-th from the low end. */
  lemma {:induction false} ByteOf(x: int, width: nat, i: nat)
    requires i < width
    ensures ToBytes(x, width)[i] == x / Pow256(i) % 256
    decreases i
  {
    if i > 0 {
      ByteOf(x / 256, width - 1, i - 1);
      DivTwice(x, 256, Pow256(i - 1));
    }
  }

  lemma DivTwice(x: int, a: nat, b: nat)
    requires a > 0 && b > 0
    ensures x / a / b == x / (a * b)
  {
    var q, r, s := x / a / b, x / a % b, x % a;
    assert x / a == q * b + r;
    assert x == (q * b + r) * a + s == q * (a * b) + (r * a + s);
    assert r * a <= (b - 1) * a;
    assert 0 <= r * a + s < a * b;
    DivModUnique(x, a * b, q, r * a + s);
  }

  /** The object representation of an integer of `k`; what does not fit is cut off. */
  function IntBytes(k: Kind, x: int): (bs: seq<byte>)
    ensures |bs| == Width(k)
  {
    ToBytes(x, Width(k))
  }

  function IntFrom(k: Kind, bs: seq<byte>): int
    requires |bs| == Width(k)
  {
    var u := FromBytes(bs);
    if IsSigned(k) && 2 * u >= Modulus(k) then u - Modulus(k) else u
  }

  lemma IntRoundTrip(k: Kind, x: int)
    requires InRange(k, x)
    ensures IntFrom(k, IntBytes(k, x)) == x
  {
    var m := Modulus(k);
    ModulusIs(k);
    FromToBytes(x, Width(k));
    DivModUnique(x, m, if x < 0 then -1 else 0, if x < 0 then x + m else x);
  }

  // ---- values --------------------------------------------------------------------------------

  function Encode(v: Value): seq<byte> {
    match v
    case Flag(b) => [if b then 1 else 0]
    case Number(k, x) => IntBytes(k, x)
    case Text(chars) => IntBytes(String, |chars|) + chars
  }

  /** What reading a `k` at the start of `bytes` yields and how many bytes it takes; `None` when the
      value does not lie wholly within them. */
  function Decode(k: Kind, bytes: seq<byte>): (r: Option<(Value, nat)>)
    ensures r.Some? ==> r.value.1 <= |bytes|
  {
    if |bytes| < Width(k) then None
    else
      var field := bytes[..Width(k)];
      match k
      case Bool => Some((Flag(field[0] != 0), 1))
      case String =>
        var length := IntFrom(String, field);
        if length < 0 || |bytes| < 4 + length then None
        else Some((Text(bytes[4..4 + length]), 4 + length))
      case _ => Some((Number(k, IntFrom(k, field)), Width(k)))
  }

  lemma DecodeEncode(v: Value, rest: seq<byte>)
    requires Representable(v)
    ensures Decode(KindOf(v), Encode(v) + rest) == Some((v, |Encode(v)|))
  {
    var k, bytes := KindOf(v), Encode(v) + rest;
    match v
    case Flag(_) =>
    case Number(_, x) =>
      assert bytes[..Width(k)] == IntBytes(k, x);
      IntRoundTrip(k, x);
    case Text(chars) =>
      assert bytes[..4] == IntBytes(String, |chars|);
      IntRoundTrip(String, |chars|);
      assert bytes[4..4 + |chars|] == chars;
  }

  /** Reading loses nothing: writing the value back gives the bytes read, except that a `bool`
      byte other than 0 and 1 comes back as 1. */
  lemma EncodeDecode(k: Kind, bytes: seq<byte>)
    requires Decode(k, bytes).Some?
    ensures var (v, taken) := Decode(k, bytes).value;
            && Representable(v) && KindOf(v) == k
            && (Encode(v) == bytes[..taken] <==> (k == Bool ==> bytes[0] <= 1))
  {
    if k != Bool {
      var field, taken := bytes[..Width(k)], Decode(k, bytes).value.1;
      FieldRoundTrip(k, field);
      if k == String {
        assert field + bytes[4..taken] == bytes[..taken];
      }
    }
  }

  lemma FieldRoundTrip(k: Kind, field: seq<byte>)
    requires |field| == Width(k)
    ensures InRange(k, IntFrom(k, field)) && IntBytes(k, IntFrom(k, field)) == field
  {
    ModulusIs(k);
    ToFromBytes(field);
    ToBytesWraps(FromBytes(field), Width(k));
  }

  // ---- lists of values -----------------------------------------------------------------------

  function EncodeAll(vs: seq<Value>): seq<byte> {
    if vs == [] then [] else Encode(vs[0]) + EncodeAll(vs[1..])
  }

  function Kinds(vs: seq<Value>): (ks: seq<Kind>)
    ensures |ks| == |vs|
  {
    seq(|vs|, i requires 0 <= i < |vs| => KindOf(vs[i]))
  }

  function DecodeAll(ks: seq<Kind>, bytes: seq<byte>): (r: Option<(seq<Value>, nat)>)
    ensures r.Some? ==> r.value.1 <= |bytes|
  {
    if ks == [] then Some(([], 0))
    else
      match Decode(ks[0], bytes)
      case None => None
      case Some((v, taken)) =>
        match DecodeAll(ks[1..], bytes[taken..])
        case None => None
        case Some((vs, more)) => Some(([v] + vs, taken + more))
  }

  lemma {:induction false} DecodeAllEncodeAll(vs: seq<Value>, rest: seq<byte>)
    requires forall v | v in vs :: Representable(v)
    ensures DecodeAll(Kinds(vs), EncodeAll(vs) + rest) == Some((vs, |EncodeAll(vs)|))
    decreases |vs|
  {
    if vs != [] {
      hide EncodeAll, DecodeAll, Kinds, Representable;
      DecodeAllEncodeAll(vs[1..], rest);
      OneMoreValue(vs, rest);
    }
  }

  lemma OneMoreValue(vs: seq<Value>, rest: seq<byte>)
    requires vs != [] && Representable(vs[0])
    requires DecodeAll(Kinds(vs[1..]), EncodeAll(vs[1..]) + rest) == Some((vs[1..], |EncodeAll(vs[1..])|))
    ensures DecodeAll(Kinds(vs), EncodeAll(vs) + rest) == Some((vs, |EncodeAll(vs)|))
  {
    hide Encode, Decode, EncodeAll, DecodeAll, Kinds, Representable;
    DecodeEncode(vs[0], EncodeAll(vs[1..]) + rest);
    KindsCons(vs);
    ConsRoundTrip(KindOf(vs[0]), Kinds(vs[1..]), vs[0], vs[1..], Encode(vs[0]), EncodeAll(vs[1..]), rest);
  }

  lemma KindsCons(vs: seq<Value>)
    requires vs != []
    ensures Kinds(vs) == [KindOf(vs[0])] + Kinds(vs[1..]) && vs == [vs[0]] + vs[1..]
    ensures EncodeAll(vs) == Encode(vs[0]) + EncodeAll(vs[1..])
  {
    hide Encode;
  }

  lemma ConsRoundTrip(k: Kind, ks: seq<Kind>, v: Value, vs: seq<Value>,
                      first: seq<byte>, more: seq<byte>, rest: seq<byte>)
    requires Decode(k, first + (more + rest)) == Some((v, |first|))
    requires DecodeAll(ks, more + rest) == Some((vs, |more|))
    ensures DecodeAll([k] + ks, (first + more) + rest) == Some(([v] + vs, |first| + |more|))
  {
    hide Decode;
    var bytes := (first + more) + rest;
    assert bytes == first + (more + rest) && bytes[|first|..] == more + rest;
    assert ([k] + ks)[1..] == ks;
  }
}

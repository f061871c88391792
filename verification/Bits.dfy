/** Machine arithmetic used by the byte buffers: powers of two, the bitwise operators on
    two's-complement integers, and the narrowing conversions to fixed-width C integers. */
module Bits {

  /** A byte of memory. A C `char` is held by its unsigned representation. */
  type byte = x: int | 0 <= x < 256

  function Min(a: int, b: int): int { if a <= b then a else b }

  function Max(a: int, b: int): int { if a <= b then b else a }

  function Pow2(k: nat): (p: nat)
    ensures p >= 1
  {
    if k == 0 then 1 else 2 * Pow2(k - 1)
  }

  /** `x & m` for a two's-complement `x` of unlimited width and a non-negative mask. */
  function BitAnd(x: int, m: nat): (r: nat)
    ensures r <= m
    decreases m
  {
    if m == 0 then 0 else 2 * BitAnd(x / 2, m / 2) + (x % 2) * (m % 2)
  }

  /** `x ^ y` on non-negative integers. */
  function BitXor(x: nat, y: nat): nat
    decreases x + y
  {
    if x == 0 && y == 0 then 0 else 2 * BitXor(x / 2, y / 2) + (x + y) % 2
  }

  lemma DivModUnique(x: int, n: int, q: int, r: int)
    requires n > 0 && 0 <= r < n && x == q * n + r
    ensures x / n == q && x % n == r
  {
    var q', r' := x / n, x % n;
    assert x == q' * n + r';
    if q > q' { MulAtLeast(q - q', n); }
    if q < q' { MulAtLeast(q' - q, n); }
  }

  lemma MulAtLeast(d: int, n: int)
    requires d >= 1 && n > 0
    ensures d * n >= n
  {
    assert (d - 1) * n >= 0;
  }

  function Mod(x: int, n: int): int
    requires n > 0
  {
    x % n
  }

  /** Masking with `2^k - 1` is the mathematical modulus, for negative numbers too. */
  lemma MaskIsMod(x: int, k: nat)
    ensures BitAnd(x, Pow2(k) - 1) == x % Pow2(k)
  {
    MaskIs(x, k);
  }

  lemma {:induction false} MaskIs(x: int, k: nat)
    ensures BitAnd(x, Pow2(k) - 1) == Mod(x, Pow2(k))
    decreases k
  {
    hide BitAnd, Mod;
    if k == 0 {
      MaskNone(x);
    } else {
      MaskIs(x / 2, k - 1);
      MaskDouble(x, Pow2(k - 1));
    }
  }

  lemma MaskNone(x: int)
    ensures BitAnd(x, 0) == Mod(x, 1)
  {
  }

  lemma MaskDouble(x: int, p: int)
    requires p > 0 && BitAnd(x / 2, p - 1) == Mod(x / 2, p)
    ensures BitAnd(x, 2 * p - 1) == Mod(x, 2 * p)
  {
    DivModUnique(2 * p - 1, 2, p - 1, 1);
    ModDouble(x, p);
  }

  lemma ModDouble(x: int, p: int)
    requires p > 0
    ensures x % (2 * p) == 2 * (x / 2 % p) + x % 2
  {
    var h, b := x / 2, x % 2;
    var q, r := h / p, h % p;
    assert h == q * p + r;
    assert q * (2 * p) == 2 * (q * p);
    DivModUnique(x, 2 * p, q, 2 * r + b);
  }

  lemma {:induction false} XorCancels(x: nat, y: nat)
    ensures BitXor(BitXor(x, y), y) == x
    decreases x + y
  {
    if x != 0 || y != 0 {
      XorCancels(x / 2, y / 2);
      var z, h := BitXor(x, y), BitXor(x / 2, y / 2);
      assert z == 2 * h + (x + y) % 2;
      assert z / 2 == h;
      SumParity(z, x, y);
      assert z != 0 || y != 0;
      assert BitXor(z, y) == 2 * BitXor(h, y / 2) + (z + y) % 2;
    }
  }

  lemma SumParity(z: int, x: int, y: int)
    requires z % 2 == (x + y) % 2
    ensures (z + y) % 2 == x % 2
  {
  }

  lemma {:induction false} XorBound(x: nat, y: nat, k: nat)
    requires x < Pow2(k) && y < Pow2(k)
    ensures BitXor(x, y) < Pow2(k)
    decreases k
  {
    if k > 0 {
      XorBound(x / 2, y / 2, k - 1);
    }
  }

  /** Bit `k` of `x ^ y` is the sum of the bits `k`, without carry. */
  lemma {:induction false} XorBit(x: nat, y: nat, k: nat)
    ensures BitXor(x, y) / Pow2(k) % 2 == (x / Pow2(k) + y / Pow2(k)) % 2
    decreases k
  {
    hide BitXor;
    if k == 0 {
      LowestXorBit(x, y);
    } else {
      XorBit(x / 2, y / 2, k - 1);
      NextXorBit(x, y, Pow2(k - 1));
    }
  }

  lemma LowestXorBit(x: nat, y: nat)
    ensures BitXor(x, y) / 1 % 2 == (x / 1 + y / 1) % 2
  {
    hide BitXor;
    XorHalves(x, y);
    SumOfParities(x, y);
  }

  lemma NextXorBit(x: nat, y: nat, p: nat)
    requires p > 0 && BitXor(x / 2, y / 2) / p % 2 == (x / 2 / p + y / 2 / p) % 2
    ensures BitXor(x, y) / (2 * p) % 2 == (x / (2 * p) + y / (2 * p)) % 2
  {
    hide BitXor;
    XorHalves(x, y);
    HalfThenDiv(x, p);
    HalfThenDiv(y, p);
    HalfThenDiv(BitXor(x, y), p);
  }

  lemma XorHalves(x: nat, y: nat)
    ensures BitXor(x, y) / 2 == BitXor(x / 2, y / 2) && BitXor(x, y) % 2 == (x % 2 + y % 2) % 2
  {
    hide BitXor;
    XorStep(x, y);
    DivModUnique(BitXor(x, y), 2, BitXor(x / 2, y / 2), (x + y) % 2);
    SumOfParities(x, y);
  }

  lemma SumOfParities(x: nat, y: nat)
    ensures (x + y) % 2 == (x % 2 + y % 2) % 2
  {
  }

  lemma XorStep(x: nat, y: nat)
    ensures BitXor(x, y) == 2 * BitXor(x / 2, y / 2) + (x + y) % 2
  {
    if x == 0 && y == 0 { assert BitXor(0, 0) == 0; }
  }

  lemma HalfThenDiv(x: nat, p: nat)
    requires p > 0
    ensures x / (2 * p) == x / 2 / p
  {
    var h, b := x / 2, x % 2;
    var q, r := h / p, h % p;
    assert h == q * p + r;
    assert q * (2 * p) == 2 * (q * p);
    DivModUnique(x, 2 * p, q, 2 * r + b);
  }

  /** `x ^ y` truncated to a `char`; only the low eight bits of either side matter. */
  function Xor8(x: byte, y: int): (r: byte)
    ensures BitXor(x, y % 256) == r
  {
    assert Pow2(8) == 256;
    XorBound(x, y % 256, 8);
    BitXor(x, y % 256)
  }

  lemma Xor8Cancels(x: byte, y: int)
    ensures Xor8(Xor8(x, y), y) == x
  {
    XorCancels(x, y % 256);
  }

  /** Exponent of the least power of two that is not below `n`. */
  function CeilLog2(n: nat): nat
    requires n >= 1
  {
    if n == 1 then 0 else 1 + CeilLog2((n + 1) / 2)
  }

  lemma {:induction false} CeilLog2IsLeast(n: nat)
    requires n >= 1
    ensures n <= Pow2(CeilLog2(n)) < 2 * n
    ensures forall k: nat :: n <= Pow2(k) ==> CeilLog2(n) <= k
  {
    if n > 1 {
      CeilLog2IsLeast((n + 1) / 2);
      forall k: nat | n <= Pow2(k) ensures CeilLog2(n) <= k {
        assert k > 0 && (n + 1) / 2 <= Pow2(k - 1);
      }
    }
  }
}

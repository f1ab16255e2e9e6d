/** The table of 128-bit powers of ten and the 64-bit primitives the fast paths share.
    Shifts and masks of the C++ code are written as division and remainder. */
module Pow10Table {
  import opened Powers

  const W32 := 0x1_0000_0000

  lemma Log2TenRange(e: int)
    requires -348 <= e <= 347
    ensures -1157 <= Log2Ten(e) <= 1152
  {
  }

  /** (217706 * e) >> 16, an arithmetic shift: the code's floor(log2(10^e)). */
  function Log2Ten(e: int): int {
    217706 * e / 65536
  }

  /** The shift is right on the whole range of the table: 10^e lies in one binade. */
  lemma Log2TenExact(e: int)
    requires -348 <= e <= 348
    ensures Two(Log2Ten(e)) <= Ten(e) < Two(Log2Ten(e) + 1)
  {
    if e == 0 {
      TwoBase();
      TenBase();
    } else if e > 0 {
      Log2TenPositive(e, Log2Ten(e));
    } else {
      NoExactMultiple(-e, Log2Ten(-e));
      Log2TenNegative(-e, Log2Ten(-e), e, Log2Ten(e));
    }
  }

  lemma Log2TenNegative(n: nat, k: nat, e: int, l: int)
    requires 0 < n <= 348 && k == Log2Ten(n) && e == -(n as int) && l == -(k as int) - 1
    ensures Two(l) <= Ten(e) < Two(l + 1)
  {
    Log2TenPositive(n, k);
    hide *;
    TwoAdd(k + 1, l, 0);
    TwoAdd(k, l + 1, 0);
    TenAdd(n, e, 0);
    TwoBase();
    TenBase();
    InverseLess(Two(k), Two(l + 1), Ten(n), Ten(e));
    InverseLess(Ten(n), Ten(e), Two(k + 1), Two(l));
  }

  lemma NoExactMultiple(n: nat, k: nat)
    requires 0 < n <= 348
    ensures 217706 * n != 65536 * k
  {
    FareyGap(k, n);
  }

  lemma Log2TenPositive(n: nat, k: nat)
    requires 0 < n <= 348 && k == Log2Ten(n)
    ensures Two(k) < Ten(n) < Two(k + 1)
  {
    Log2TenPower(n, k);
    TwoNat(k);
    TwoNat(k + 1);
    TenNat(n);
  }

  lemma InverseLess(x: real, xi: real, y: real, yi: real)
    requires 0.0 < x < y && xi > 0.0 && yi > 0.0
    requires Times(x, xi) == 1.0 && Times(y, yi) == 1.0
    ensures yi < xi
  {
    hide Times;
    // x < y gives x*(xi*yi) < y*(xi*yi), that is yi < xi
    TimesPositive(xi, yi);
    TimesOrder(x, y, Times(xi, yi));
    TimesAssoc(x, xi, yi);
    TimesUnit(yi);
    TimesComm(xi, yi);
    TimesAssoc(y, yi, xi);
    TimesUnit(xi);
  }

  /** Entry e of the table: 10^e scaled into [2^127, 2^128) and rounded down. */
  function Pow10M128(e: int): nat
    requires -348 <= e <= 347
  {
    TimesPositive(Ten(e), Two(127 - Log2Ten(e)));
    Times(Ten(e), Two(127 - Log2Ten(e))).Floor
  }

  lemma TableBracket(e: int)
    requires -348 <= e <= 347
    ensures var p, x := Pow10M128(e), Times(Ten(e), Two(127 - Log2Ten(e)));
            p as real <= x < p as real + 1.0 && TOP * W64 <= p < W64 * W64
  {
    hide Two, Ten, Log2Ten, Times;
    var k := Log2Ten(e);
    Log2TenExact(e);
    Two127();
    TwoAdd(k, 127 - k, 127);
    TwoAdd(k + 1, 127 - k, 128);
    TimesOrder(Two(k), Ten(e), Two(127 - k));
    TimesOrder(Ten(e), Two(k + 1), Two(127 - k));
  }

  lemma Two127()
    ensures Two(127) == (TOP * W64) as real && Two(128) == (W64 * W64) as real
    ensures Two(64) == W64 as real && Two(63) == TOP as real
  {
    Two16();
    hide Two;
    TwoAdd(16, 16, 32);
    TwoAdd(32, 32, 64);
    TwoAdd(64, 64, 128);
    TwoStep(63);
    TwoStep(127);
    assert Times(65536.0, 65536.0) == W32 as real;
    assert Times(W32 as real, W32 as real) == W64 as real;
    assert Times(W64 as real, W64 as real) == (W64 * W64) as real;
  }

  lemma Two16()
    ensures Two(16) == 65536.0
  {
    assert Two(8) == 256.0;
    TwoAdd(8, 8, 16);
  }

  /** One multiplication instruction. */
  function Mul(a: nat, b: nat): nat {
    a * b
  }

  /** The number of zero bits above the highest set bit. */
  function LeadingZeroes(m: nat): (n: nat)
    requires 0 < m < W64
    ensures n <= 63 && TOP <= Mul(m, Pow(2, n)) < W64
    decreases W64 - m
  {
    if m >= TOP then assert Pow(2, 0) == 1; 0
    else
      var n := LeadingZeroes(2 * m);
      MulAssoc(m, 2, Pow(2, n));
      LeadingZeroBound(m, n);
      n + 1
  }

  lemma LeadingZeroBound(m: nat, n: nat)
    requires 0 < m && n <= 63 && (2 * m) * Pow(2, n) < W64
    ensures n < 63
  {
    if n == 63 {
      TwoNat(63);
      Two127();
      assert Pow(2, 63) == TOP;
      MulLeft(1, m, TOP);
    }
  }

  /** The exact 128-bit product, by 32-bit limbs (the branch for compilers without a
      128-bit type; the other branch is this contract). */
  method MulU64(x: u64, y: u64) returns (hi: u64, lo: u64)
    ensures hi * W64 + lo == Mul(x, y)
  {
    hide Mul;
    var x0, x1 := x % W32, x / W32;
    var y0, y1 := y % W32, y / W32;
    MulBound(x0, y0, W32);
    MulBound(x1, y0, W32);
    MulBound(x0, y1, W32);
    MulBound(x1, y1, W32);
    MulBound(x, y, W64);
    LimbSum(x, y, x0, x1, y0, y1);
    var w0: u64 := Mul(x0, y0);
    var t: u64 := Mul(x1, y0) + w0 / W32;
    var w1: u64 := t % W32;
    var w2: u64 := t / W32;
    Carries(Mul(x, y), Mul(x1, y1), Mul(x1, y0), Mul(x0, y1),
            w0 / W32, w0 % W32, w2, w1, (w1 + Mul(x0, y1)) / W32, (w1 + Mul(x0, y1)) % W32);
    w1 := w1 + Mul(x0, y1);
    lo := Mul(x, y) % W64;
    hi := Mul(x1, y1) + w2 + w1 / W32;
  }

  lemma MulBound(a: nat, b: nat, w: nat)
    requires a < w && b < w
    ensures Mul(a, b) <= (w - 1) * (w - 1)
  {
    MulLeft(a, w - 1, b);
    MulLeft(b, w - 1, w - 1);
  }

  lemma LimbSum(x: nat, y: nat, x0: nat, x1: nat, y0: nat, y1: nat)
    requires x == x1 * W32 + x0 && y == y1 * W32 + y0
    ensures Mul(x, y) == Mul(x1, y1) * W64 + (Mul(x1, y0) + Mul(x0, y1)) * W32 + Mul(x0, y0)
  {
    var a, b := x1 * W32, y1 * W32;
    assert (a + x0) * (b + y0) == a * b + a * y0 + x0 * b + x0 * y0;
    assert a * b == (x1 * y1) * W64;
    assert a * y0 == (x1 * y0) * W32;
    assert x0 * b == (x0 * y1) * W32;
  }

  /** Linear bookkeeping of the carries. */
  lemma Carries(n: nat, p11: nat, p10: nat, p01: nat, a: nat, b: nat, c: nat, d: nat, e: nat, f: nat)
    requires n == p11 * W64 + (p10 + p01) * W32 + (a * W32 + b)
    requires p10 + a == c * W32 + d && d + p01 == e * W32 + f
    requires b < W32 && f < W32
    ensures (p11 + c + e) * W64 + n % W64 == n
    ensures n < W64 * W64 ==> p11 + c + e < W64
  {
    var r := f * W32 + b;
    assert n == (p11 + c + e) * W64 + r && r < W64;
  }
}

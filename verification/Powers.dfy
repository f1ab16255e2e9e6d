/** Powers with natural exponents over the naturals, and powers of two and of ten with
    integer exponents over the reals.  The reals only carry exact values: no rounding
    happens in them. */
module Powers {

  const W64 := 0x1_0000_0000_0000_0000
  const TOP := 0x8000_0000_0000_0000

  type u64 = x: nat | x < W64

  function Pow(b: nat, n: nat): (r: nat)
    ensures b > 0 ==> r > 0
  {
    if n == 0 then 1 else b * Pow(b, n - 1)
  }

  // Products the solver is better told than asked to find.

  lemma MulAssoc(x: int, y: int, z: int)
    ensures x * (y * z) == (x * y) * z
  {
  }

  lemma MulLeft(x: int, y: int, t: int)
    requires x <= y && t >= 0
    ensures t * x <= t * y && x * t <= y * t
  {
    assert t * (y - x) >= 0;
    assert t * (y - x) == t * y - t * x;
  }

  lemma MulLeftStrict(x: int, y: int, t: int)
    requires x < y && t > 0
    ensures t * x < t * y && x * t < y * t
  {
    assert t * (y - x) > 0;
    assert t * (y - x) == t * y - t * x;
  }

  // Exact real products.  Proofs hide the definition and use the laws below: the solver is
  // good at linear arithmetic over products it does not look into.

  function Times(x: real, y: real): (r: real) {
    x * y
  }

  lemma TimesAssoc(x: real, y: real, z: real)
    ensures Times(x, Times(y, z)) == Times(Times(x, y), z)
  {
  }

  lemma TimesComm(x: real, y: real)
    ensures Times(x, y) == Times(y, x)
  {
  }

  lemma TimesAdd(x: real, y: real, t: real)
    ensures Times(x + y, t) == Times(x, t) + Times(y, t)
  {
  }

  lemma TimesDouble(x: real, t: real)
    ensures Times(2.0 * x, t) == 2.0 * Times(x, t) && Times(x, 2.0 * t) == 2.0 * Times(x, t)
  {
  }

  lemma TimesUnit(x: real)
    ensures Times(1.0, x) == x && Times(x, 1.0) == x && Times(0.0, x) == 0.0
  {
  }

  /** Scaling by a positive real keeps the order, and so reflects it. */
  lemma TimesOrder(x: real, y: real, t: real)
    requires t > 0.0
    ensures x < y <==> Times(x, t) < Times(y, t)
    ensures x <= y <==> Times(x, t) <= Times(y, t)
  {
    assert (y - x) * t == y * t - x * t;
    if x < y {
      assert (y - x) * t > 0.0;
    } else if y < x {
      assert (x - y) * t > 0.0;
    }
  }

  lemma TimesPositive(x: real, y: real)
    requires x > 0.0 && y > 0.0
    ensures Times(x, y) > 0.0
  {
  }

  lemma TimesNat(m: nat, n: nat, p: nat)
    requires p == m * n
    ensures Times(m as real, n as real) == p as real
  {
  }

  lemma CancelFactor(c: real, cz: real, cx: real, z: real, x: real, y: real)
    requires c > 0.0 && cz == c * z && cx == c * x && cz == Times(cx, y)
    ensures z == Times(x, y)
  {
    assert c * (x * y) == (c * x) * y;
    assert c * (z - x * y) == 0.0;
  }

  lemma TimesScale(c: real, x: real, y: real)
    ensures Times(c * x, y) == c * Times(x, y)
  {
    assert c * (x * y) == (c * x) * y;
  }

  lemma {:induction false} PowAdd(b: nat, m: nat, n: nat)
    ensures Pow(b, m + n) == Pow(b, m) * Pow(b, n)
  {
    if m != 0 {
      PowAdd(b, m - 1, n);
      MulAssoc(b, Pow(b, m - 1), Pow(b, n));
    }
  }

  lemma {:induction false} PowMul(b: nat, m: nat, n: nat)
    ensures Pow(b, m * n) == Pow(Pow(b, m), n)
  {
    if n != 0 {
      PowMul(b, m, n - 1);
      assert m * n == m + m * (n - 1);
      PowAdd(b, m, m * (n - 1));
    }
  }

  lemma {:induction false} PowProduct(a: nat, b: nat, n: nat)
    ensures Pow(a * b, n) == Pow(a, n) * Pow(b, n)
  {
    if n != 0 {
      PowProduct(a, b, n - 1);
      var x, y := Pow(a, n - 1), Pow(b, n - 1);
      MulAssoc(a, b, x * y);
      MulAssoc(b, x, y);
      MulAssoc(x, b, y);
      MulAssoc(a, x, b * y);
    }
  }

  lemma {:induction false} PowMono(b: nat, m: nat, n: nat)
    requires b >= 1 && m <= n
    ensures Pow(b, m) <= Pow(b, n)
  {
    if m < n {
      PowMono(b, m, n - 1);
      assert Pow(b, n - 1) <= b * Pow(b, n - 1);
    }
  }

  lemma {:induction false} PowBaseMono(a: nat, b: nat, n: nat)
    requires a <= b
    ensures Pow(a, n) <= Pow(b, n)
  {
    if n != 0 {
      PowBaseMono(a, b, n - 1);
      MulLeft(Pow(a, n - 1), Pow(b, n - 1), a);
      MulLeft(a, b, Pow(b, n - 1));
    }
  }

  lemma {:induction false} PowBaseStrict(a: nat, b: nat, n: nat)
    requires a < b && n > 0
    ensures Pow(a, n) < Pow(b, n)
  {
    PowBaseMono(a, b, n - 1);
    MulLeft(Pow(a, n - 1), Pow(b, n - 1), a);
    MulLeftStrict(a, b, Pow(b, n - 1));
  }

  /** 2^e as an exact real, for any integer e. */
  function Two(e: int): (r: real)
    ensures r > 0.0
    decreases if e >= 0 then e else -e
  {
    if e == 0 then 1.0 else if e > 0 then 2.0 * Two(e - 1) else 0.5 * Two(e + 1)
  }

  /** 10^e as an exact real, for any integer e. */
  function Ten(e: int): (r: real)
    ensures r > 0.0
    decreases if e >= 0 then e else -e
  {
    if e == 0 then 1.0 else if e > 0 then 10.0 * Ten(e - 1) else 0.1 * Ten(e + 1)
  }

  lemma TwoStep(e: int)
    ensures Two(e + 1) == 2.0 * Two(e)
  {
  }

  lemma TenStep(e: int)
    ensures Ten(e + 1) == 10.0 * Ten(e)
  {
  }

  lemma TwoBase()
    ensures Two(0) == 1.0 && Two(1) == 2.0
  {
  }

  lemma {:induction false} TwoAddNat(m: nat, n: int, t: int)
    requires t == m + n
    ensures Two(t) == Times(Two(m), Two(n))
  {
    hide *;
    TwoBase();
    TimesUnit(Two(n));
    if m > 0 {
      TwoAddNat(m - 1, n, t - 1);
      TwoStep(m - 1);
      TwoStep(t - 1);
      TimesScale(2.0, Two(m - 1), Two(n));
    }
  }

  lemma {:induction false} TwoAddNeg(m: nat, s: int, n: int, t: int)
    requires s == -(m as int) && t == s + n
    ensures Two(t) == Times(Two(s), Two(n))
  {
    hide *;
    TwoBase();
    TimesUnit(Two(n));
    if m > 0 {
      TwoAddNeg(m - 1, s + 1, n, t + 1);
      TwoStep(s);
      TwoStep(t);
      CancelFactor(2.0, Two(t + 1), Two(s + 1), Two(t), Two(s), Two(n));
    }
  }

  lemma TwoAdd(m: int, n: int, t: int)
    requires t == m + n
    ensures Two(t) == Times(Two(m), Two(n))
  {
    if m >= 0 {
      TwoAddNat(m, n, t);
    } else {
      TwoAddNeg(-m, m, n, t);
    }
  }

  lemma TenBase()
    ensures Ten(0) == 1.0 && Ten(1) == 10.0
  {
  }

  lemma {:induction false} TenAddNat(m: nat, n: int, t: int)
    requires t == m + n
    ensures Ten(t) == Times(Ten(m), Ten(n))
  {
    hide *;
    TenBase();
    TimesUnit(Ten(n));
    if m > 0 {
      TenAddNat(m - 1, n, t - 1);
      TenStep(m - 1);
      TenStep(t - 1);
      TimesScale(10.0, Ten(m - 1), Ten(n));
    }
  }

  lemma {:induction false} TenAddNeg(m: nat, s: int, n: int, t: int)
    requires s == -(m as int) && t == s + n
    ensures Ten(t) == Times(Ten(s), Ten(n))
  {
    hide *;
    TenBase();
    TimesUnit(Ten(n));
    if m > 0 {
      TenAddNeg(m - 1, s + 1, n, t + 1);
      TenStep(s);
      TenStep(t);
      CancelFactor(10.0, Ten(t + 1), Ten(s + 1), Ten(t), Ten(s), Ten(n));
    }
  }

  lemma TenAdd(m: int, n: int, t: int)
    requires t == m + n
    ensures Ten(t) == Times(Ten(m), Ten(n))
  {
    if m >= 0 {
      TenAddNat(m, n, t);
    } else {
      TenAddNeg(-m, m, n, t);
    }
  }

  lemma {:induction false} TwoNat(n: nat)
    ensures Two(n) == Pow(2, n) as real
  {
    if n != 0 {
      TwoNat(n - 1);
    }
  }

  lemma {:induction false} TenNat(n: nat)
    ensures Ten(n) == Pow(10, n) as real
  {
    if n != 0 {
      TenNat(n - 1);
    }
  }

  lemma {:induction false} TwoMono(m: int, n: int)
    requires m <= n
    ensures Two(m) <= Two(n)
    decreases n - m
  {
    if m < n {
      TwoMono(m, n - 1);
      TwoStep(n - 1);
    }
  }

  lemma {:induction false} TenMono(m: int, n: int)
    requires m <= n
    ensures Ten(m) <= Ten(n)
    decreases n - m
  {
    if m < n {
      TenMono(m, n - 1);
      TenStep(n - 1);
    }
  }

  // ----- 217706 / 65536 as log2(10) -----

  lemma PowSplit(b: nat, m: nat, n: nat, x: nat, y: nat)
    requires Pow(b, m) == x && Pow(b, n) == y
    ensures Pow(b, m + n) == x * y
  {
    PowAdd(b, m, n);
  }

  lemma SmallPowers()
    ensures Pow(10, 18) == 1000000000000000000 && Pow(10, 7) == 10000000 && Pow(10, 2) == 100
    ensures Pow(2, 20) == 1048576 && Pow(2, 5) == 32 && Pow(2, 1) == 2
  {
    assert Pow(2, 10) == 1024;
    PowAdd(2, 10, 10);
  }

  /** The two powers that bracket log2(10) between 485/146 and 681/205.  (z is zero; it
      keeps the exponents symbolic, so that the solver multiplies instead of unfolding.) */
  lemma BracketPowers(z: nat)
    requires z < 1
    ensures Pow(2, 485 + z) <= Pow(10, 146 + z)
    ensures Pow(10, 205 + z) <= Pow(2, 681 + z)
  {
    SmallPowers();
    var t, u := 1000000000000000000, 1048576;
    PowSplit(10, 18 + z, 18 + z, t, t);
    PowSplit(10, 36 + z, 36 + z, t * t, t * t);
    PowSplit(10, 72 + z, 72 + z, t * t * (t * t), t * t * (t * t));
    var v := t * t * (t * t) * (t * t * (t * t));
    PowSplit(10, 144 + z, 2 + z, v, 100);
    PowSplit(10, 18 + z, 7 + z, t, 10000000);
    PowSplit(10, 36 + z, 25 + z, t * t, t * 10000000);
    PowSplit(10, 144 + z, 61 + z, v, t * t * (t * 10000000));
    PowSplit(2, 20 + z, 20 + z, u, u);
    PowSplit(2, 40 + z, 40 + z, u * u, u * u);
    var w := u * u * (u * u);
    PowSplit(2, 80 + z, 80 + z, w, w);
    PowSplit(2, 160 + z, 160 + z, w * w, w * w);
    PowSplit(2, 320 + z, 160 + z, w * w * (w * w), w * w);
    PowSplit(2, 480 + z, 5 + z, w * w * (w * w) * (w * w), 32);
    PowSplit(2, 320 + z, 320 + z, w * w * (w * w), w * w * (w * w));
    PowSplit(2, 640 + z, 40 + z, w * w * (w * w) * (w * w * (w * w)), u * u);
    PowSplit(2, 680 + z, 1 + z, w * w * (w * w) * (w * w * (w * w)) * (u * u), 2);
  }

  /** No fraction with denominator up to 348 lies strictly between 485/146 and 681/205,
      because 681*146 - 485*205 == 1 and 146 + 205 > 348. */
  lemma FareyGap(n: nat, e: nat)
    requires 0 < e <= 348
    ensures 146 * n <= 485 * e || 681 * e <= 205 * n
  {
    if 485 * e < 146 * n && 205 * n < 681 * e {
      assert false;
    }
  }

  lemma RootBound(x: nat, y: nat, n: nat)
    requires n > 0 && Pow(x, n) <= Pow(y, n)
    ensures x <= y
  {
    if y < x {
      PowBaseStrict(y, x, n);
    }
  }

  lemma Log2TenLower(e: nat, k: nat, a: nat, b: nat)
    requires Pow(2, a) <= Pow(10, b) && b > 0
    requires b * k <= a * e
    ensures Pow(2, k) <= Pow(10, e)
  {
    PowMono(2, k * b, a * e);
    PowMul(2, a, e);
    PowBaseMono(Pow(2, a), Pow(10, b), e);
    PowMul(10, b, e);
    PowMul(10, e, b);
    PowMul(2, k, b);
    assert b * e == e * b;
    RootBound(Pow(2, k), Pow(10, e), b);
  }

  lemma Log2TenUpper(e: nat, k: nat, a: nat, b: nat)
    requires Pow(10, b) <= Pow(2, a) && b > 0
    requires a * e <= b * k
    ensures Pow(10, e) <= Pow(2, k)
  {
    assert b * e == e * b && b * k == k * b;
    PowMono(2, a * e, k * b);
    PowMul(2, a, e);
    PowBaseMono(Pow(10, b), Pow(2, a), e);
    PowMul(10, b, e);
    PowMul(10, e, b);
    PowMul(2, k, b);
    RootBound(Pow(10, e), Pow(2, k), b);
  }

  /** b/a and d/c are 485/146 and 681/205, but callers see the ratios only: literal
      exponents would make the solver unfold Pow hundreds of times. */
  lemma BracketExponents() returns (a: nat, b: nat, c: nat, d: nat)
    ensures Pow(2, b) <= Pow(10, a) && a > 0 && a * 485 == b * 146
    ensures Pow(10, c) <= Pow(2, d) && c > 0 && c * 681 == d * 205
  {
    var z: nat :| z < 1;
    BracketPowers(z);
    a, b, c, d := 146 + z, 485 + z, 205 + z, 681 + z;
  }

  lemma SameRatio(a: nat, b: nat, p: nat, q: nat, k: nat, e: nat)
    requires a * q == b * p && p > 0
    ensures p * k <= q * e ==> a * k <= b * e
    ensures q * e <= p * k ==> b * e <= a * k
  {
    MulAssoc(p, a, k);
    MulAssoc(a, p, k);
    MulAssoc(a, q, e);
    MulAssoc(p, b, e);
    assert p * (a * k) == a * (p * k);
    assert p * (b * e) == a * (q * e);
    if p * k <= q * e {
      MulLeft(p * k, q * e, a);
      if a * k > b * e {
        MulLeftStrict(b * e, a * k, p);
      }
    }
    if q * e <= p * k {
      MulLeft(q * e, p * k, a);
      if b * e > a * k {
        MulLeftStrict(a * k, b * e, p);
      }
    }
  }

  /** 485/146 < log2(10) < 681/205. */
  lemma Log2TenBracket(e: nat, k: nat)
    ensures 146 * k <= 485 * e ==> Pow(2, k) <= Pow(10, e)
    ensures 681 * e <= 205 * k ==> Pow(10, e) <= Pow(2, k)
  {
    var a, b, c, d := BracketExponents();
    if 146 * k <= 485 * e {
      SameRatio(a, b, 146, 485, k, e);
      Log2TenLower(e, k, b, a);
    }
    if 681 * e <= 205 * k {
      SameRatio(c, d, 205, 681, k, e);
      Log2TenUpper(e, k, d, c);
    }
  }

  lemma TenIsNoPowerOfTwo(e: nat, k: nat)
    requires e > 0
    ensures Pow(10, e) != Pow(2, k)
  {
    PowerOfTwoMod5(k);
    assert Pow(10, e) == 10 * Pow(10, e - 1);
  }

  /** floor(log2(10^e)) is (217706 * e) >> 16 for 0 <= e <= 348. */
  lemma Log2TenPower(e: nat, k: nat)
    requires 0 < e <= 348 && k == 217706 * e / 65536
    ensures Pow(2, k) < Pow(10, e) < Pow(2, k + 1)
  {
    FareyGap(k, e);
    FareyGap(k + 1, e);
    assert 146 * k <= 485 * e;
    assert 681 * e <= 205 * (k + 1);
    Log2TenBracket(e, k);
    Log2TenBracket(e, k + 1);
    TenIsNoPowerOfTwo(e, k);
    TenIsNoPowerOfTwo(e, k + 1);
  }

  lemma {:induction false} PowerOfTwoMod5(n: nat)
    ensures Pow(2, n) % 5 != 0
  {
    if n != 0 {
      PowerOfTwoMod5(n - 1);
    }
  }
}

/** The two table-driven fast paths from mantissa and decimal exponent to a double.  When
    either returns true, its bits are the nearest double to mant * 10^exp10. */
module EiselLemire {
  import opened Powers
  import opened Binary64
  import opened Pow10Table

  /** The exact decimal value the fast paths approximate. */
  function Exact(mant: nat, exp10: int): real {
    Times(mant as real, Ten(exp10))
  }

  // ----- what the truncated products still determine -----

  /** The mantissa shifted so that its leading bit is bit 63. */
  function Normal(mant: nat): (w: nat)
    requires 0 < mant < W64
    ensures TOP <= w < W64
  {
    Mul(mant, Pow(2, LeadingZeroes(mant)))
  }

  /** One unit of the bits of the product that rounding looks at. */
  const CELL := 512 * W64 * W64

  /** The true product, somewhere between these two, may have one unit more: a multiple of CELL is not below
      the lower one and not above the upper one. */
  predicate Straddles(w: nat, p: nat) { Mul(p, w) / CELL != Mul(p + 1, w) / CELL }

  /** The 54 bits rounding looks at. */
  function Leading54(w: nat, p: nat): nat {
    var k := Mul(p, w) / CELL;
    if k >= 2 * P53 then k / 2 else k
  }

  /** Nothing is below them in the leading words of the one product or of both. */
  predicate NoMore(w: nat, p: nat) {
    Mul(w, p / W64) % (512 * W64) == 0 || Mul(p, w) / W64 % (512 * W64) == 0
  }

  /** They could be a tie that would be rounded down. */
  predicate MaybeTie(w: nat, p: nat) { NoMore(w, p) && Leading54(w, p) % 4 == 1 }

  /** q is the quotient of the exact scaled value t by 2^(128+s): the bits kept. */
  ghost predicate Kept(t: real, q: nat, s: nat) {
    Times(q as real, Two(128 + s)) <= t < Times((q + 1) as real, Two(128 + s))
  }

  /** The high product (hi, lo) of w and the top table word determines all bits from the
      10th of hi upwards, unless those nine low bits are all ones and lo + w carries. */
  lemma OneProduct(w: nat, p: nat, hi: nat, lo: nat)
    requires w < W64 && lo < W64 && hi * W64 + lo == Mul(w, p / W64)
    requires !(hi % 512 == 511 && lo + w >= W64)
    ensures (hi * W64 + lo) * W64 <= Mul(p, w)
    ensures Mul(p + 1, w) <= (hi / 512 + 1) * 512 * W64 * W64
    ensures Mul(p, w) / CELL == hi / 512 && !Straddles(w, p)
  {
    SplitProduct(w, p);
    hide Mul;
    assert hi * W64 + lo + w < (hi / 512 + 1) * 512 * W64;
    InCell(Mul(p, w), hi / 512);
    InCell(Mul(p + 1, w), hi / 512);
  }

  lemma InCell(n: nat, k: nat)
    requires k * CELL <= n < (k + 1) * CELL
    ensures n / CELL == k
  {}

  /** With the second product merged in, only all ones below can still hide a carry. */
  lemma TwoProducts(w: nat, p: nat, hi: nat, lo: nat, yHi: nat, yLo: nat, mHi: nat, mLo: nat)
    requires w < W64 && lo < W64 && yLo < W64 && mLo < W64
    requires hi * W64 + lo == Mul(w, p / W64) && yHi * W64 + yLo == Mul(w, p % W64)
    requires mHi * W64 + mLo == hi * W64 + lo + yHi
    requires !(mHi % 512 == 511 && mLo == W64 - 1 && yLo + w >= W64)
    ensures (mHi * W64 + mLo) * W64 <= Mul(p, w)
    ensures Mul(p + 1, w) <= (mHi / 512 + 1) * 512 * W64 * W64
    ensures Mul(p, w) / CELL == mHi / 512 && !Straddles(w, p)
  {
    SplitProduct(w, p);
    hide Mul;
    TopCell(mHi, mLo, yLo, w);
    InCell(Mul(p, w), mHi / 512);
    InCell(Mul(p + 1, w), mHi / 512);
  }

  lemma TopCell(mHi: nat, mLo: nat, yLo: nat, w: nat)
    requires w < W64 && yLo < W64 && mLo < W64
    requires !(mHi % 512 == 511 && mLo == W64 - 1 && yLo + w >= W64)
    ensures mHi / 512 * CELL <= (mHi * W64 + mLo) * W64
    ensures (mHi * W64 + mLo) * W64 + yLo + w < (mHi / 512 + 1) * CELL
  {
    var k := mHi / 512;
    assert mHi == 512 * k + mHi % 512;
    if mHi % 512 == 511 && mLo == W64 - 1 {
      assert mHi + 1 == (k + 1) * 512;
    } else {
      assert mHi * W64 + mLo + 2 <= (k + 1) * 512 * W64;
    }
  }

  /** When those bits are all ones and the low words carry, the two products do straddle. */
  lemma InDoubt(w: nat, p: nat, mHi: nat, mLo: nat, yHi: nat, yLo: nat, hi: nat, lo: nat)
    requires w < W64 && lo < W64 && yLo < W64 && mLo < W64
    requires hi * W64 + lo == Mul(w, p / W64) && yHi * W64 + yLo == Mul(w, p % W64)
    requires mHi * W64 + mLo == hi * W64 + lo + yHi
    requires mHi % 512 == 511 && mLo == W64 - 1 && yLo + w >= W64
    ensures Straddles(w, p)
  {
    SplitProduct(w, p);
    hide Mul;
    var k := mHi / 512;
    assert mHi == 512 * k + 511;
    InCell(Mul(p, w), k);
    InCell(Mul(p + 1, w), k + 1);
  }

  /** The second product changes the leading words only when the first is in doubt. */
  lemma TieWords(w: nat, p: nat, hi: nat, lo: nat, yHi: nat, yLo: nat, mHi: nat, mLo: nat)
    requires w < W64 && lo < W64 && yLo < W64 && mLo < W64
    requires hi * W64 + lo == Mul(w, p / W64) && yHi * W64 + yLo == Mul(w, p % W64)
    requires mHi * W64 + mLo == hi * W64 + lo + yHi
    ensures (if hi % 512 == 511 && lo + w >= W64 then mLo == 0 && mHi % 512 == 0 else lo == 0 && hi % 512 == 0) <==>
            NoMore(w, p)
  {
    hide Mul;
    SplitProduct(w, p);
    SecondWord(Mul(p, w), hi * W64 + lo, yHi, yLo);
    WordMultiple(hi, lo);
    WordMultiple(mHi, mLo);
    SmallCarry(w, yHi, yLo);
    if yHi > 0 && (hi * W64 + lo + yHi) % (512 * W64) == 0 {
      JustBelow(hi, lo, yHi);
    }
  }

  lemma TieWord(w: nat, p: nat, hi: nat, lo: nat)
    requires w < W64 && lo < W64 && hi * W64 + lo == Mul(w, p / W64) && !(hi % 512 == 511 && lo + w >= W64)
    ensures lo == 0 && hi % 512 == 0 <==> NoMore(w, p)
  {
    hide Mul, NoMore;
    var y := Mul(w, p % W64);
    var m := hi * W64 + lo + y / W64;
    TieWords(w, p, hi, lo, y / W64, y % W64, m / W64, m % W64);
  }

  lemma SecondWord(n: nat, a: nat, yHi: nat, yLo: nat)
    requires n == a * W64 + (yHi * W64 + yLo) && yLo < W64
    ensures n / W64 == a + yHi
  {}

  lemma SmallCarry(w: nat, yHi: nat, yLo: nat)
    requires w < W64 && yHi * W64 + yLo + w <= w * W64
    ensures yHi < W64 && (yHi > 0 ==> yHi < w)
  {}

  /** A word that a carry below W64 lifts to a multiple ends in ones. */
  lemma JustBelow(hi: nat, lo: nat, y: nat)
    requires lo < W64 && 0 < y < W64 && (hi * W64 + lo + y) % (512 * W64) == 0
    ensures hi % 512 == 511 && lo == W64 - y
  {
    var k := (hi * W64 + lo + y) / (512 * W64);
    assert hi * W64 + lo + y == 512 * W64 * k;
    assert hi == 512 * (k - 1) + 511 && lo == W64 - y;
  }

  lemma WordMultiple(hi: nat, lo: nat)
    requires lo < W64
    ensures (hi * W64 + lo) % (512 * W64) == 0 <==> lo == 0 && hi % 512 == 0
  {
    var k, r := hi / 512, hi % 512;
    assert hi * W64 + lo == k * (512 * W64) + (r * W64 + lo);
    assert r * W64 + lo < 512 * W64;
  }

  lemma SplitProduct(w: nat, p: nat)
    requires w < W64
    ensures Mul(p, w) == Mul(w, p / W64) * W64 + Mul(w, p % W64)
    ensures Mul(p + 1, w) == Mul(p, w) + w
    ensures Mul(w, p % W64) + w <= w * W64
  {
    var a, b := p / W64, p % W64;
    assert p * w == (a * W64 + b) * w;
    assert (a * W64 + b) * w == (w * a) * W64 + w * b;
    MulLeft(b + 1, W64, w);
    assert w * (b + 1) == w * b + w;
  }

  /** From integer bounds on P*w and (P+1)*w to the exact value x*w, P <= x < P + 1. */
  lemma ScaledBounds(w: nat, p: nat, x: real, lo: nat, hi: nat)
    requires w > 0 && p as real <= x < p as real + 1.0
    requires lo <= Mul(p, w) && Mul(p + 1, w) <= hi
    ensures lo as real <= Times(x, w as real) < hi as real
  {
    TimesNat(p, w, Mul(p, w));
    TimesNat(p + 1, w, Mul(p + 1, w));
    hide Times, Mul;
    TimesOrder(p as real, x, w as real);
    TimesOrder(x, (p + 1) as real, w as real);
  }

  /** Dropping 9 or 10 low bits of the high word leaves the 54 bits the rounding needs. */
  lemma KeptBits(t: real, hi: nat, lo: nat, msb: nat, q: nat)
    requires msb == hi / TOP && TOP / 2 <= hi < W64 && lo < W64
    requires q == if msb == 1 then hi / 1024 else hi / 512
    requires ((hi * W64 + lo) * W64) as real <= t
    requires t < ((hi / 512 + 1) * 512 * W64 * W64) as real
    ensures P53 <= q < 2 * P53 && Kept(t, q, 9 + msb)
    ensures t == Times(q as real, Two(137 + msb)) ==> lo == 0 && hi % 512 == 0
  {
    Two137();
    hide Two, Times;
    var c := if msb == 1 then 1024 * W64 * W64 else 512 * W64 * W64;
    var cq := if msb == 1 then q * (1024 * W64 * W64) else q * (512 * W64 * W64);
    var cq1 := if msb == 1 then (q + 1) * (1024 * W64 * W64) else (q + 1) * (512 * W64 * W64);
    TimesNat(q, c, cq);
    TimesNat(q + 1, c, cq1);
    KeptInts(hi, lo, msb, q, cq, cq1);
  }

  lemma KeptInts(hi: nat, lo: nat, msb: nat, q: nat, cq: nat, cq1: nat)
    requires msb == hi / TOP && TOP / 2 <= hi < W64 && lo < W64
    requires q == if msb == 1 then hi / 1024 else hi / 512
    requires cq == if msb == 1 then 1024 * W64 * W64 * q else 512 * W64 * W64 * q
    requires cq1 == if msb == 1 then 1024 * W64 * W64 * (q + 1) else 512 * W64 * W64 * (q + 1)
    ensures P53 <= q < 2 * P53
    ensures cq <= (hi * W64 + lo) * W64 && (hi / 512 + 1) * 512 * W64 * W64 <= cq1
    ensures (hi * W64 + lo) * W64 <= cq ==> lo == 0 && hi % 512 == 0
  {
    var r := hi % 512;
    var h := hi / 512;
    assert hi == 512 * h + r;
    if msb == 1 {
      assert h == 2 * q + h % 2;
    }
  }

  lemma Two137()
    ensures Two(137) == (512 * W64 * W64) as real && Two(138) == (1024 * W64 * W64) as real
  {
    Two127();
    assert Two(9) == 512.0;
    hide Two;
    TwoAdd(9, 128, 137);
    TwoStep(137);
    assert Times(512.0, (W64 * W64) as real) == (512 * W64 * W64) as real;
  }

  /** Rounding the kept bits is rounding x = t / 2^(129+s), once the unresolved tie is out. */
  lemma RoundKept(t: real, q: nat, s: nat, x: real)
    requires Kept(t, q, s) && P53 <= q < 2 * P53
    requires q % 4 == 1 ==> t != Times(q as real, Two(128 + s))
    requires t == Times(x, Two(129 + s))
    ensures NearestInt(x, (q + q % 2) / 2) && P52 as real <= x < P53 as real
  {
    hide Two, Times;
    TwoStep(128 + s);
    Unscale(t, x, Two(128 + s), Two(129 + s), q as real);
    Unscale(t, x, Two(128 + s), Two(129 + s), (q + 1) as real);
    HalfRounds(x, q, (q + q % 2) / 2);
  }

  lemma Unscale(t: real, x: real, u: real, u2: real, q: real)
    requires u > 0.0 && u2 == 2.0 * u && t == Times(x, u2)
    ensures Times(q, u) <= t <==> q <= 2.0 * x
    ensures t < Times(q, u) <==> 2.0 * x < q
    ensures t == Times(q, u) <==> 2.0 * x == q
  {
    hide Times;
    TimesDouble(x, u);
    TimesOrder(q, 2.0 * x, u);
    TimesOrder(2.0 * x, q, u);
  }

  lemma HalfRounds(x: real, q: nat, m: nat)
    requires q as real <= 2.0 * x < (q + 1) as real && 2 * m == q + q % 2
    requires q % 4 == 1 ==> 2.0 * x != q as real
    ensures NearestInt(x, m)
  {
    assert 2.0 * m as real == (q + q % 2) as real;
  }

  /** The rounded significand and the biased exponent, put together by the code. */
  lemma Assemble(v: real, x: real, e: int, m: nat)
    requires v == Times(x, Two(e - 1075))
    requires NearestInt(x, m) && P52 as real <= x < P53 as real
    requires 1 <= (if m == P53 then e + 1 else e) <= 2046
    ensures P52 <= m <= P53 && Nearest(v, (e - 1) * P52 + m)
  {
    hide Nearest, Two, Times;
    if e == 0 {
      // rounded up to the smallest normal: one bit less of precision does not matter
      TwoStep(-1075);
      TimesDouble(0.5 * x, Two(-1075));
      RoundSignificand(v, 0.5 * x, 1, P52);
    } else {
      RoundSignificand(v, x, e, m);
    }
  }

  // ----- the scaled value -----

  /** The normalised mantissa times the exact table power is the value, shifted. */
  lemma ScaledExact(mant: nat, exp10: int, clz: nat, w: nat, k: int, x: real)
    requires w == Mul(mant, Pow(2, clz)) && x == Times(Ten(exp10), Two(127 - k))
    ensures Times(x, w as real) == Times(Exact(mant, exp10), Two(127 - k + clz))
  {
    TwoNat(clz);
    TimesNat(mant, Pow(2, clz), w);
    hide Two, Ten, Times, Pow, Mul;
    TwoAdd(127 - k, clz, 127 - k + clz);
    var m, t, a, b := mant as real, Ten(exp10), Two(127 - k), Two(clz);
    calc {
      Times(Times(t, a), Times(m, b));
      { TimesComm(Times(t, a), Times(m, b)); }
      Times(Times(m, b), Times(t, a));
      { TimesAssoc(m, b, Times(t, a)); }
      Times(m, Times(b, Times(t, a)));
      { TimesComm(b, Times(t, a)); TimesAssoc(t, a, b); }
      Times(m, Times(t, Times(a, b)));
      { TimesAssoc(m, t, Times(a, b)); }
      Times(Times(m, t), Times(a, b));
    }
  }

  /** v * 2^(n) == t gives v == (t / 2^(129+s)) * 2^(129+s-n). */
  lemma Rescale(v: real, t: real, n: int, s: nat, x: real, e: int)
    requires t == Times(v, Two(n)) && x == Times(t, Two(-129 - s)) && e - 1075 == 129 + s - n
    ensures t == Times(x, Two(129 + s)) && v == Times(x, Two(e - 1075))
  {
    hide Two, Times;
    TwoBase();
    TwoAdd(-129 - s, 129 + s, 0);
    TimesAssoc(t, Two(-129 - s), Two(129 + s));
    TimesUnit(t);
    TwoAdd(n, -129 - s, n - 129 - s);
    TwoAdd(n - 129 - s, e - 1075, 0);
    TimesAssoc(v, Two(n), Two(-129 - s));
    TimesAssoc(v, Two(n - 129 - s), Two(e - 1075));
    TimesUnit(v);
  }

  /** From the kept bits to the pattern: what both methods below end with. */
  lemma RoundedPattern(mant: nat, exp10: int, clz: nat, w: nat, x: real, q: nat, msb: nat, e: int)
    requires w == Mul(mant, Pow(2, clz)) && x == Times(Ten(exp10), Two(127 - Log2Ten(exp10)))
    requires Kept(Times(x, w as real), q, 9 + msb) && P53 <= q < 2 * P53
    requires q % 4 == 1 ==> Times(x, w as real) != Times(q as real, Two(137 + msb))
    requires e == Log2Ten(exp10) + 1086 + msb - clz
    requires var m := (q + q % 2) / 2; 1 <= (if m == P53 then e + 1 else e) <= 2046
    ensures var m := (q + q % 2) / 2;
            P52 <= m <= P53 && P52 <= (e - 1) * P52 + m < INFINITY && Nearest(Exact(mant, exp10), (e - 1) * P52 + m)
  {
    var k, s, v, t := Log2Ten(exp10), 9 + msb, Exact(mant, exp10), Times(x, w as real);
    ScaledExact(mant, exp10, clz, w, k, x);
    hide *;
    var y := Times(t, Two(-129 - s));
    Rescale(v, t, 127 - k + clz, s, y, e);
    RoundKept(t, q, s, y);
    Assemble(v, y, e, (q + q % 2) / 2);
  }

  /** The sign is the top bit of the pattern. */
  function Signed(b: nat, sgn: int): nat {
    if sgn == -1 then TOP + b else b
  }

  /** The bits are those of the double nearest to v, with a sign, and that double is normal. */
  ghost predicate RoundsTo(v: real, val: nat, sgn: int) {
    exists b: nat :: P52 <= b < INFINITY && val == Signed(b, sgn) && Nearest(v, b)
  }

  /** Between these two the exact product lies, when its leading words are hi and lo. */
  function AtLeast(hi: nat, lo: nat): nat { (hi * W64 + lo) * W64 }
  function Below(hi: nat): nat { (hi / 512 + 1) * 512 * W64 * W64 }

  /** x_hi and x_lo after the first or both multiplications, or a verdict that the 128-bit
      approximation cannot tell the 54 bits. */
  method ApproximateProduct(w: u64, p: nat) returns (ok: bool, hi: u64, lo: u64)
    requires TOP <= w && TOP * W64 <= p < W64 * W64
    ensures ok <==> !Straddles(w, p)
    ensures ok ==> TOP / 2 <= hi && hi / 512 == Mul(p, w) / CELL
    ensures ok ==> AtLeast(hi, lo) <= Mul(p, w) && Mul(p + 1, w) <= Below(hi)
    ensures ok ==> (lo == 0 && hi % 512 == 0 <==> NoMore(w, p))
  {
    hide Mul, NoMore, Straddles;
    hi, lo := MulU64(w, p / W64);
    ok := true;
    HighWord(w, p / W64, hi, lo);
    // (x_lo + mant) < mant is the carry of the addition
    if hi % 512 == 511 && (lo + w) % W64 < w {
      var yHi, yLo := MulU64(w, p % W64);
      var mHi := hi;
      var mLo := (lo + yHi) % W64;
      if mLo < lo {
        NoOverflow(w, p, hi, lo, yHi, yLo);
        mHi := mHi + 1;
      }
      if mHi % 512 == 511 && (mLo + 1) % W64 == 0 && (yLo + w) % W64 < w {
        InDoubt(w, p, mHi, mLo, yHi, yLo, hi, lo);
        ok := false;
        return;
      }
      TwoProducts(w, p, hi, lo, yHi, yLo, mHi, mLo);
      TieWords(w, p, hi, lo, yHi, yLo, mHi, mLo);
      hi, lo := mHi, mLo;
    } else {
      OneProduct(w, p, hi, lo);
      TieWord(w, p, hi, lo);
    }
  }

  lemma HighWord(w: nat, p1: nat, hi: nat, lo: nat)
    requires TOP <= w && TOP <= p1 && lo < W64 && hi * W64 + lo == Mul(w, p1)
    ensures TOP / 2 <= hi
  {
    MulLeft(TOP, w, p1);
    MulLeft(TOP, p1, TOP);
  }

  lemma NoOverflow(w: nat, p: nat, hi: nat, lo: nat, yHi: nat, yLo: nat)
    requires w < W64 && p < W64 * W64 && lo < W64 && yLo < W64
    requires hi * W64 + lo == Mul(w, p / W64) && yHi * W64 + yLo == Mul(w, p % W64)
    ensures hi * W64 + lo + yHi < W64 * W64
  {
    MulLeft(p / W64, W64 - 1, w);
    MulLeft(p % W64, W64 - 1, w);
    MulLeft(w, W64 - 1, W64 - 1);
  }

  /** The 54 bits that rounding looks at, unless they sit on a tie that would round down. */
  method Remain54Bits(hi: u64, lo: u64, ghost t: real) returns (ok: bool, msb: nat, man: nat)
    requires TOP / 2 <= hi
    requires AtLeast(hi, lo) as real <= t < Below(hi) as real
    ensures msb <= 1 && P53 <= man < 2 * P53 && Kept(t, man, 9 + msb)
    ensures man == (if hi / 512 >= 2 * P53 then hi / 512 / 2 else hi / 512)
    ensures ok <==> !(lo == 0 && hi % 512 == 0 && man % 4 == 1)
    ensures ok && man % 4 == 1 ==> t != Times(man as real, Two(137 + msb))
  {
    hide Two, Times, Kept;
    msb := hi / TOP;
    man := if msb == 1 then hi / 1024 else hi / 512;
    KeptBits(t, hi, lo, msb, man);
    ok := !(lo == 0 && hi % 512 == 0 && man % 4 == 1);
  }

  /** The table cannot tell the 54 bits, or takes them for a tie. */
  ghost predicate Undecided(mant: nat, exp10: int)
    requires 0 < mant < W64 && -348 <= exp10 <= 347
  {
    var w, p := Normal(mant), Pow10M128(exp10);
    Straddles(w, p) || MaybeTie(w, p)
  }

  /** That is so only when the true product, anywhere between the two, is at a multiple of CELL or less than
      2^128 above one: of its 54 leading bits and the nine below, the nine are all zeros or turn over. */
  lemma UndecidedIsNear(mant: nat, exp10: int) returns (k: nat)
    requires 0 < mant < W64 && -348 <= exp10 <= 347 && Undecided(mant, exp10)
    ensures var w, p := Normal(mant), Pow10M128(exp10);
            Mul(p, w) < k * CELL + W64 * W64 && k * CELL <= Mul(p + 1, w)
  {
    var w, p := Normal(mant), Pow10M128(exp10);
    hide Mul, Normal, Pow10M128;
    SplitProduct(w, p);
    if Straddles(w, p) {
      k := Mul(p + 1, w) / CELL;
      NextCell(Mul(p, w), Mul(p + 1, w), k);
    } else {
      k := WordsAtCell(Mul(p, w), Mul(w, p / W64), Mul(w, p % W64));
    }
  }

  lemma WordsAtCell(n: nat, a: nat, y: nat) returns (k: nat)
    requires n == a * W64 + y && y < W64 * W64
    requires a % (512 * W64) == 0 || n / W64 % (512 * W64) == 0
    ensures k * CELL <= n < k * CELL + W64 * W64
  {
    if a % (512 * W64) == 0 {
      k := a / (512 * W64);
      assert a == k * (512 * W64);
    } else {
      k := n / W64 / (512 * W64);
      assert n / W64 == k * (512 * W64);
    }
  }

  lemma NextCell(m: nat, n: nat, k: nat)
    requires m <= n && k == n / CELL && m / CELL != k
    ensures m < k * CELL <= n
  {}

  /** Rounded to 53 bits, v is neither below the least normal double nor above the greatest. */
  ghost predicate RoundsNormal(v: real) {
    Times((2 * P53 - 1) as real, Two(-1076)) <= v && !Nearest(v, INFINITY)
  }

  /** When the table answers. */
  ghost predicate Decides(mant: nat, exp10: int)
    requires 0 < mant < W64
  {
    -348 <= exp10 <= 347 && !Undecided(mant, exp10) && RoundsNormal(Exact(mant, exp10))
  }

  /** include/sonic/internal/atof_native.h, AtofEiselLemire64. */
  method AtofEiselLemire64(mant: u64, exp10: int, sgn: int) returns (ok: bool, val: nat)
    requires mant > 0
    ensures ok <==> Decides(mant, exp10)
    ensures ok ==> RoundsTo(Exact(mant, exp10), val, sgn)
  {
    hide Two, Ten, Times, Mul, Pow, Kept, Nearest, Log2Ten, LeadingZeroes, Pow10M128, Exact, AtLeast,
      Below, RoundsTo, Packed, Straddles, NoMore, RoundsNormal;
    ok, val := false, 0;
    if exp10 < -348 || exp10 > 347 {
      return;
    }
    Log2TenRange(exp10);
    var clz := LeadingZeroes(mant);
    var w: u64 := Mul(mant, Pow(2, clz));
    var exp2: u64 := (Log2Ten(exp10) + 64 + 1023 - clz) % W64;
    var p := Pow10M128(exp10);
    ghost var x := Times(Ten(exp10), Two(127 - Log2Ten(exp10)));
    ghost var t := Times(x, w as real);
    TableBracket(exp10);
    var certain, hi, lo := ApproximateProduct(w, p);
    if !certain {
      return;
    }
    ScaledBounds(w, p, x, AtLeast(hi, lo), Below(hi));
    var decided, msb, man := Remain54Bits(hi, lo, t);
    if !decided {
      return;
    }
    Wrapped(Log2Ten(exp10) + 64 + 1023 - clz, 1 - msb);
    exp2 := (exp2 - (1 - msb)) % W64;
    ghost var e := Log2Ten(exp10) + 1086 + msb - clz;
    ok, val := RoundAndPack(man, exp2, sgn, e);
    RangeKept(mant, exp10, clz, w, x, man, msb, e);
    if ok {
      PackedRounds(mant, exp10, clz, w, x, man, msb, e, val, sgn);
    }
  }

  lemma Wrapped(e: int, d: int)
    ensures (e % W64 - d) % W64 == (e - d) % W64
  {}

  lemma PackedRounds(mant: nat, exp10: int, clz: nat, w: nat, x: real, q: nat, msb: nat, e: int, val: nat, sgn: int)
    requires w == Mul(mant, Pow(2, clz)) && x == Times(Ten(exp10), Two(127 - Log2Ten(exp10)))
    requires Kept(Times(x, w as real), q, 9 + msb) && P53 <= q < 2 * P53
    requires q % 4 == 1 ==> Times(x, w as real) != Times(q as real, Two(137 + msb))
    requires e == Log2Ten(exp10) + 1086 + msb - clz
    requires Packed(q, e, sgn, val)
    ensures RoundsTo(Exact(mant, exp10), val, sgn)
  {
    hide Two, Ten, Times, Mul, Pow, Kept, Nearest, Log2Ten, Exact, Signed;
    RoundedPattern(mant, exp10, clz, w, x, q, msb, e);
  }

  /** The exponent is in range exactly when the value is. */
  lemma RangeKept(mant: nat, exp10: int, clz: nat, w: nat, x: real, q: nat, msb: nat, e: int)
    requires w == Mul(mant, Pow(2, clz)) && x == Times(Ten(exp10), Two(127 - Log2Ten(exp10)))
    requires Kept(Times(x, w as real), q, 9 + msb) && P53 <= q < 2 * P53
    requires q % 4 == 1 ==> Times(x, w as real) != Times(q as real, Two(137 + msb))
    requires e == Log2Ten(exp10) + 1086 + msb - clz
    ensures FieldFits(q, e) <==> RoundsNormal(Exact(mant, exp10))
  {
    var k, s, v, t := Log2Ten(exp10), 9 + msb, Exact(mant, exp10), Times(x, w as real);
    ScaledExact(mant, exp10, clz, w, k, x);
    var m := (q + q % 2) / 2;
    assert P52 <= m <= P53;
    hide *;
    var y := Times(t, Two(-129 - s));
    Rescale(v, t, 127 - k + clz, s, y, e);
    RoundKept(t, q, s, y);
    RangeExact(v, y, e, q);
  }

  /** The exponent field of q rounded to 53 bits is that of a normal double. */
  predicate FieldFits(q: nat, e: int) {
    1 <= (if (q + q % 2) / 2 == P53 then e + 1 else e) <= 2046
  }

  lemma RangeExact(v: real, y: real, e: int, q: nat)
    requires v == Times(y, Two(e - 1075)) && P52 as real <= y < P53 as real && P53 <= q < 2 * P53
    requires NearestInt(y, (q + q % 2) / 2)
    ensures FieldFits(q, e) <==> RoundsNormal(v)
  {
    hide Nearest, Two, Times;
    var m := (q + q % 2) / 2;
    if FieldFits(q, e) {
      Assemble(v, y, e, m);
      if Nearest(v, INFINITY) {
        NearestUnique(v, (e - 1) * P52 + m, INFINITY);
      }
      LeastNormal(v, y, e, m);
    } else if e <= 0 {
      BelowNormal(v, y, e, m);
    } else {
      AboveNormal(v, y, e, m);
    }
  }

  lemma LeastNormal(v: real, y: real, e: int, m: nat)
    requires v == Times(y, Two(e - 1075)) && P52 as real <= y && NearestInt(y, m) && (e >= 1 || (e == 0 && m == P53))
    ensures Times((2 * P53 - 1) as real, Two(-1076)) <= v
  {
    hide Two, Times;
    if e >= 1 {
      TwoMono(-1074, e - 1075);
      TimesComm(y, Two(e - 1075));
      TimesComm(y, Two(-1074));
      TimesOrder(Two(-1074), Two(e - 1075), y);
      TwoStep(-1075);
      TwoStep(-1076);
      TimesDouble(y, Two(-1075));
      TimesDouble(2.0 * y, Two(-1076));
      TimesOrder((2 * P53 - 1) as real, 4.0 * y, Two(-1076));
    } else {
      TwoStep(-1076);
      TimesDouble(y, Two(-1076));
      TimesOrder((2 * P53 - 1) as real, 2.0 * y, Two(-1076));
    }
  }

  lemma BelowNormal(v: real, y: real, e: int, m: nat)
    requires v == Times(y, Two(e - 1075)) && 0.0 < y < P53 as real && NearestInt(y, m) && e <= 0
    requires e == 0 ==> m < P53
    ensures v < Times((2 * P53 - 1) as real, Two(-1076))
  {
    hide Two, Times;
    if e < 0 {
      TwoMono(e - 1075, -1076);
      TimesComm(y, Two(e - 1075));
      TimesComm(y, Two(-1076));
      TimesOrder(Two(e - 1075), Two(-1076), y);
      TimesOrder(y, (2 * P53 - 1) as real, Two(-1076));
    } else {
      TwoStep(-1076);
      TimesDouble(y, Two(-1076));
      HalfBelow(y, m);
      TimesOrder(2.0 * y, (2 * P53 - 1) as real, Two(-1076));
    }
  }

  /** The tie below 2^53 rounds up, to even. */
  lemma HalfBelow(y: real, m: nat)
    requires y < P53 as real && NearestInt(y, m) && m < P53
    ensures 2.0 * y < (2 * P53 - 1) as real
  {}

  lemma AboveNormal(v: real, y: real, e: int, m: nat)
    requires v == Times(y, Two(e - 1075)) && P52 as real <= y < P53 as real && NearestInt(y, m)
    requires e >= 2047 || (e == 2046 && m == P53)
    ensures Nearest(v, INFINITY)
  {
    hide Nearest, Two, Times;
    if e == 2046 {
      RoundSignificand(v, y, 2046, P53);
    } else {
      TwoMono(972, e - 1075);
      TimesComm(y, Two(e - 1075));
      TimesComm(y, Two(972));
      TimesOrder(Two(972), Two(e - 1075), y);
      TimesOrder(P52 as real, y, Two(972));
      TopBinade(v);
    }
  }

  /** From 2^1024 on, the nearest pattern is infinity. */
  lemma TopBinade(v: real)
    requires v >= Times(P52 as real, Two(972))
    ensures Nearest(v, INFINITY)
  {
    NearestIsRounds(v, INFINITY);
    var k: nat := 2047;
    ValueAt(k, P52);
    assert (k - 1) * P52 + P52 == INFINITY;
    ValueLess(INFINITY - 1, INFINITY);
    hide Nearest, Two, Value, Times;
  }

  /** The bits of q rounded to even at its lowest bit, with exponent e and a sign. */
  predicate Packed(q: nat, e: int, sgn: int, val: nat) {
    var m := (q + q % 2) / 2;
    1 <= (if m == P53 then e + 1 else e) <= 2046 && P52 <= m && val == Signed((e - 1) * P52 + m, sgn)
  }

  /** Rounds 54 bits to 53 and packs them, or rejects an exponent out of the normal range. */
  method RoundAndPack(man54: nat, exp: u64, sgn: int, ghost e: int) returns (ok: bool, val: nat)
    requires P53 <= man54 < 2 * P53 && -3000 <= e <= 3000 && exp == e % W64
    ensures ok <==> FieldFits(man54, e)
    ensures ok ==> Packed(man54, e, sgn, val)
  {
    hide Packed, Signed;
    var man, exp2 := man54, exp;
    man := man + man % 2;
    man := man / 2;
    PackedExponent(man54, e, sgn);
    if man / P53 > 0 {
      man := man / 2;
      exp2 := (exp2 + 1) % W64;
    }
    if (exp2 - 1) % W64 >= 0x7FF - 1 {
      return false, 0;
    }
    var bits := exp2 * P52 + man % P52;
    return true, Signed(bits, sgn);
  }

  lemma PackedExponent(q: nat, e: int, sgn: int)
    requires P53 <= q < 2 * P53 && -3000 <= e <= 3000
    ensures var m := (q + q % 2) / 2;
            var f := if m / P53 > 0 then (e % W64 + 1) % W64 else e % W64;
            ((f - 1) % W64 < 0x7FE <==> FieldFits(q, e)) &&
            ((f - 1) % W64 < 0x7FE ==>
               Packed(q, e, sgn, Signed(f * P52 + (if m / P53 > 0 then m / 2 else m) % P52, sgn)))
  {
    hide Signed;
    var m := (q + q % 2) / 2;
    WrappedExponent(e, m);
    Wrapped(e, -1);
  }

  /** The unsigned exponent arithmetic, and the final range test that rejects subnormals,
      infinities and wrapped negative exponents alike. */
  lemma WrappedExponent(e: int, m: nat)
    requires -3000 <= e <= 3000 && P52 <= m <= P53
    ensures var f, man := if m == P53 then e + 1 else e, if m == P53 then P52 else m;
            ((f % W64 - 1) % W64 < 0x7FE <==> 1 <= f <= 2046) &&
            (1 <= f <= 2046 ==> f % W64 * P52 + man % P52 == (e - 1) * P52 + m)
  {
  }
}

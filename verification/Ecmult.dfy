/** Double multiplication na * A + ng * G from four interleaved signed-digit strings. */
module Ecmult {
  import opened Words
  import opened Scalars
  import opened Group
  import opened Digits
  import opened Wnaf
  import opened Split

  const WINDOW_A: nat := 5
  const WINDOW_G: nat := 15
  const TABLE_SIZE_A: nat := 8
  const TABLE_SIZE_G: nat := 8192

  /** pre[k] is (2k + 1) times the point of index base. */
  ghost predicate IsOddTable(pre: array<Point>, base: int)
    reads pre
  {
    forall k :: 0 <= k < pre.Length ==> pre[k] == OddMultiple(k, base)
  }

  function OddMultiple(k: nat, base: int): Point {
    Times((2 * k + 1) * base)
  }

  lemma NextOddMultiple(k: nat, base: int)
    ensures Add(OddMultiple(k, base), Times(2 * base)) == OddMultiple(k + 1, base)
  {
    AddTimes((2 * k + 1) * base, 2 * base);
    MulDistrib(2 * k + 1, 2, base);
  }

  /** Fills pre with a, 3a, 5a, ... by adding 2a each time. */
  method OddMultiplesTable(pre: array<Point>, a: Point)
    requires pre.Length > 0
    modifies pre
    ensures IsOddTable(pre, a)
  {
    var d := Double(a);
    pre[0] := a;
    TimesOfPoint(a);
    var i := 1;
    while i < pre.Length
      invariant 1 <= i <= pre.Length
      invariant forall k :: 0 <= k < i ==> pre[k] == OddMultiple(k, a)
    {
      NextOddMultiple(i - 1, a);
      pre[i] := Add(pre[i - 1], d);
      i := i + 1;
    }
  }

  /** The coefficients of such a table are too small to be multiples of N, and so are their multiples by lambda. */
  lemma CoefficientNotZero(n: int)
    requires -N < n < N && n != 0
    ensures Times(n) != INFINITY && Times(TimesLambda(n)) != INFINITY
  {
    DivModUnique(n, N, if n < 0 then -1 else 0, if n < 0 then N + n else n);
    if Times(TimesLambda(n)) == INFINITY {
      LambdaInvertible(n);
    }
  }

  /** The table entry for an odd digit n of width w, negated for a negative digit. */
  method TableGet(pre: array<Point>, n: int, w: nat, ghost base: int) returns (r: Point)
    requires w >= 2 && OddDigit(w, n) && pre.Length == Pow2(w - 2) && IsOddTable(pre, base)
    ensures r == Times(n * base)
  {
    assert Pow2(w - 1) == 2 * Pow2(w - 2);
    hide Times;
    if n > 0 {
      HalfIndex(n);
      r := pre[(n - 1) / 2];
    } else {
      HalfIndex(0 - n);
      r := Neg(pre[(0 - n - 1) / 2]);
      NegTimes((0 - n) * base);
      assert 0 - (0 - n) * base == n * base;
    }
  }

  lemma HalfIndex(n: int)
    requires n > 0 && n % 2 == 1
    ensures (n - 1) / 2 >= 0 && 2 * ((n - 1) / 2) + 1 == n
  {
  }

  /** One digit's contribution: adds n times the base when digit i is in range and nonzero. */
  method AddDigit(r: Point, wnaf: array<int>, bits: nat, i: nat, pre: array<Point>, w: nat, ghost v: int,
                  ghost base: int, ghost e: int)
    returns (s: Point)
    requires w >= 2 && Recoding(wnaf, bits, w, v) && pre.Length == Pow2(w - 2) && IsOddTable(pre, base)
    requires r == Times(e)
    ensures s == Times(e + DigitAt(wnaf[..], i) * base)
  {
    s := r;
    if i < bits && wnaf[i] != 0 {
      var n := wnaf[i];
      assert OddDigit(w, wnaf[..][i]);
      var tmpa := TableGet(pre, n, w, base);
      s := Add(r, tmpa);
      AddTimes(e, n * base);
    }
  }

  /** The precomputed generator tables: odd multiples of G and of 2^128 * G. */
  class Context {
    var preG: array?<Point>
    var preG128: array?<Point>

    constructor ()
      ensures preG == null && preG128 == null
    {
      preG, preG128 := null, null;
    }

    ghost predicate Built()
      reads this, preG, preG128
    {
      && preG != null && preG.Length == TABLE_SIZE_G && IsOddTable(preG, 1)
      && preG128 != null && preG128.Length == TABLE_SIZE_G && IsOddTable(preG128, W2)
    }

    /** Fills both tables, unless that was already done. */
    method Build()
      requires preG != null ==> Built()
      modifies this
      ensures Built()
      ensures old(preG) != null ==> preG == old(preG) && preG128 == old(preG128)
    {
      if preG != null {
        return;
      }
      var g128 := TwoTo128();
      preG := OddMultiplesTableStorage(TABLE_SIZE_G, G);
      preG128 := OddMultiplesTableStorage(TABLE_SIZE_G, g128);
    }
  }

  method OddMultiplesTableStorage(n: nat, a: Point) returns (pre: array<Point>)
    requires n > 0
    ensures fresh(pre) && pre.Length == n && IsOddTable(pre, a)
  {
    pre := new Point[n](_ => INFINITY);
    OddMultiplesTable(pre, a);
  }

  /** 2^128 * G by doubling. */
  method TwoTo128() returns (g128: Point)
    ensures g128 == W2
  {
    g128 := G;
    var i: nat := 0;
    assert Pow2(i) == 1;
    TimesOfPoint(G);
    while i < 128
      invariant i <= 128 && g128 == Times(Pow2(i))
    {
      MultipleTimes(2, Pow2(i));
      g128 := Double(g128);
      i := i + 1;
    }
    Pow2At(i);
    DivModUnique(W2, N, 0, W2);
  }

  /** The exponent of the running sum: halves of na over a and lambda a, halves of ng over G and 2^128 G. */
  function Combined(a: int, t1: int, tl: int, u: int, v: int): int {
    t1 * a + tl * TimesLambda(a) + u * 1 + v * 0x1_0000_0000_0000_0000_0000_0000_0000_0000
  }

  lemma CombinedStep(a: int, t1: int, tl: int, u: int, v: int, n1: int, nl: int, nu: int, nv: int)
    ensures 2 * Combined(a, t1, tl, u, v) + n1 * a + nl * TimesLambda(a) + nu * 1 + nv * W2
         == Combined(a, n1 + 2 * t1, nl + 2 * tl, nu + 2 * u, nv + 2 * v)
  {
    var l := TimesLambda(a);
    MulDistrib(n1, 2 * t1, a);
    MulDistrib(nl, 2 * tl, l);
    MulAssoc(2, t1, a);
    MulAssoc(2, tl, l);
  }

  /** The recombined exponent names the point na * a + ng * G. */
  lemma CombinedResult(a: Point, na: int, s1: int, sl: int, ng: int, u: int, v: int)
    requires na == ModN(s1 + TimesLambda(sl)) && ng == u + W2 * v
    ensures Times(Combined(a, s1, sl, u, v)) == Add(Multiple(na, a), Multiple(ng, G))
  {
    var x := s1 + TimesLambda(sl);
    var k := TimesSplit(x);
    assert na == x - k * N;
    assert Combined(a, s1, sl, u, v) == (na * a + ng) + (k * a) * N by {
      MulDistrib(s1, TimesLambda(sl), a);
      assert TimesLambda(sl) * a == sl * TimesLambda(a);
      MulDistrib(na, k * N, a);
      assert (k * N) * a == (k * a) * N;
    }
    TimesCongruent(Combined(a, s1, sl, u, v), na * a + ng, k * a);
    AddTimes(na * a, ng * G);
  }

  /** ng as low and high halves. */
  method Split128(r1: Scalar, r2: Scalar, a: Scalar)
    requires r1 != r2
    modifies r1, r2
    ensures old(a.Value()) == r1.Value() + W2 * r2.Value()
    ensures r1.Value() < W2 && r2.Value() < W2
  {
    var a0, a1, a2, a3 := a.d0, a.d1, a.d2, a.d3;
    r1.d0, r1.d1, r1.d2, r1.d3 := a0, a1, 0, 0;
    r2.d0, r2.d1, r2.d2, r2.d3 := a2, a3, 0, 0;
  }

  /** A recoded scalar: its digits, in an array of exactly their number, spell v. */
  ghost predicate Recoding(wnaf: array<int>, bits: nat, w: nat, v: int)
    requires w > 0
    reads wnaf
  {
    && bits <= wnaf.Length && (forall k :: bits <= k < wnaf.Length ==> wnaf[k] == 0)
    && IsWnaf(w, wnaf[..]) && Eval(1, wnaf[..]) == v
  }

  /** Recodes a scalar whose magnitude leaves the last digit position clear. */
  method Recode(len: nat, a: Scalar, w: nat) returns (wnaf: array<int>, bits: nat)
    requires 0 < len <= 256 && 2 <= w <= 31 && a.Reduced() && Abs(TopBitSigned(a.Value())) < Pow2(len - 1)
    ensures fresh(wnaf) && wnaf.Length == len && Recoding(wnaf, bits, w, TopBitSigned(a.Value()))
  {
    wnaf := new int[len](_ => 0);
    ghost var carryOut;
    bits, carryOut := EcmultWnaf(wnaf, len, a, w);
    assert wnaf[..len] == wnaf[..];
    WnafExact(TopBitSigned(a.Value()), len, Eval(1, wnaf[..]), carryOut);
  }

  lemma ShortIsTopBitSigned(v: int)
    requires 0 <= v < N && -W2 < Signed(v) < W2
    ensures TopBitSigned(v) == Signed(v) && Abs(TopBitSigned(v)) < W2
  {
  }

  lemma LowIsTopBitSigned(v: int)
    requires 0 <= v < W2
    ensures TopBitSigned(v) == v && Abs(TopBitSigned(v)) < W2
  {
  }

  /** The two half-length strings of na, 130 digits each. */
  method RecodeSplit(na: Scalar)
    returns (wnaf1: array<int>, bits1: nat, wnafLam: array<int>, bitsLam: nat, ghost s1: int, ghost sl: int)
    requires na.Reduced()
    ensures fresh(wnaf1) && fresh(wnafLam) && wnaf1.Length == 130 && wnafLam.Length == 130
    ensures Recoding(wnaf1, bits1, WINDOW_A, s1) && Recoding(wnafLam, bitsLam, WINDOW_A, sl)
    ensures na.Value() == ModN(s1 + TimesLambda(sl))
  {
    hide Limbs4, Pow2, Signed, TopBitSigned, Abs, Recoding, TimesLambda, ModN;
    var na1 := new Scalar(0, 0, 0, 0);
    var naLam := new Scalar(0, 0, 0, 0);
    SplitLambda(na1, naLam, na);
    s1, sl := Signed(na1.Value()), Signed(naLam.Value());
    ShortIsTopBitSigned(na1.Value());
    ShortIsTopBitSigned(naLam.Value());
    var len: nat := 130;
    Pow2Monotone(128, len - 1);
    Pow2At(128 + 0 * len);
    wnaf1, bits1 := Recode(len, na1, WINDOW_A);
    wnafLam, bitsLam := Recode(len, naLam, WINDOW_A);
  }

  /** The strings of the low and high halves of ng, 129 digits each. */
  method RecodeHalves(ng: Scalar)
    returns (wnaf1: array<int>, bits1: nat, wnaf128: array<int>, bits128: nat, ghost u: int, ghost v: int)
    requires ng.Reduced()
    ensures fresh(wnaf1) && fresh(wnaf128) && wnaf1.Length == 129 && wnaf128.Length == 129
    ensures Recoding(wnaf1, bits1, WINDOW_G, u) && Recoding(wnaf128, bits128, WINDOW_G, v)
    ensures ng.Value() == u + W2 * v
  {
    hide Limbs4, Pow2, Signed, TopBitSigned, Abs, Recoding;
    var ng1 := new Scalar(0, 0, 0, 0);
    var ng128 := new Scalar(0, 0, 0, 0);
    Split128(ng1, ng128, ng);
    u, v := ng1.Value(), ng128.Value();
    LowIsTopBitSigned(u);
    LowIsTopBitSigned(v);
    var len: nat := 129;
    Pow2At(len - 1);
    wnaf1, bits1 := Recode(len, ng1, WINDOW_G);
    wnaf128, bits128 := Recode(len, ng128, WINDOW_G);
  }

  /** The odd multiples of a and of lambda * a; no entry is infinity. */
  method PointTables(a: Point) returns (preA: array<Point>, preALam: array<Point>)
    requires FullOrder(a)
    ensures fresh(preA) && fresh(preALam) && preA.Length == TABLE_SIZE_A && preALam.Length == TABLE_SIZE_A
    ensures IsOddTable(preA, a) && IsOddTable(preALam, TimesLambda(a))
    ensures forall k :: 0 <= k < TABLE_SIZE_A ==> preA[k] != INFINITY && preALam[k] != INFINITY
  {
    preA := new Point[TABLE_SIZE_A](_ => INFINITY);
    OddMultiplesTable(preA, a);
    preALam := new Point[TABLE_SIZE_A](_ => INFINITY);
    var i := 0;
    while i < TABLE_SIZE_A
      invariant 0 <= i <= TABLE_SIZE_A
      invariant IsOddTable(preA, a)
      invariant forall k :: 0 <= k < i ==> preALam[k] == OddMultiple(k, TimesLambda(a))
      invariant forall k :: 0 <= k < i ==> preA[k] != INFINITY && preALam[k] != INFINITY
    {
      ghost var n := 2 * i + 1;
      CoefficientNotZero(n);
      MultipleOfFullOrder(a, n);
      LambdaCommutes(n, a);
      MultipleTimes(LAMBDA, n * a);
      MultipleOfFullOrder(a, TimesLambda(n));
      preALam[i] := MulLambda(preA[i]);
      i := i + 1;
    }
  }

  /** lambda is invertible: its inverse is its square. */
  lemma LambdaInvertible(x: int)
    requires Times(TimesLambda(x)) == INFINITY
    ensures Times(x) == INFINITY
  {
    var y := TimesLambda(x);
    MultipleTimes(LAMBDA_INVERSE, y);
    InverseProduct(x);
    TimesCongruent(LAMBDA_INVERSE * y, x, 0x3839E41D7CF2CEE1CAF89B4386E04B2C9DFEAD3340071EECDB5AF9929B558DFB * x);
    DivModUnique(0, N, 0, 0);
  }

  const LAMBDA_INVERSE: int := 0xAC9C52B33FA3CF1F5AD9E3FD77ED9BA4A880B9FC8EC739C2E0CFC810B51283CE

  lemma InverseProduct(x: int)
    ensures LAMBDA_INVERSE * TimesLambda(x)
         == x + 0x3839E41D7CF2CEE1CAF89B4386E04B2C9DFEAD3340071EECDB5AF9929B558DFB * x * N
  {
  }

  lemma LambdaCommutes(n: int, a: int)
    ensures LAMBDA * (n * a) == n * TimesLambda(a) == TimesLambda(n) * a
  {
  }

  lemma TableSizes(a: nat, g: nat)
    requires a == WINDOW_A && g == WINDOW_G
    ensures Pow2(a - 2) == TABLE_SIZE_A && Pow2(g - 2) == TABLE_SIZE_G
  {
    assert Pow2(3) == 8;
    Pow2Sum(3, 10, g - 2, 8, 1024);
  }

  /** Above every used digit the running sum is zero. */
  lemma TailsEnd(a: int, d1: seq<int>, dl: seq<int>, du: seq<int>, dv: seq<int>, i: nat)
    requires forall k :: i <= k < |d1| ==> d1[k] == 0
    requires forall k :: i <= k < |dl| ==> dl[k] == 0
    requires forall k :: i <= k < |du| ==> du[k] == 0
    requires forall k :: i <= k < |dv| ==> dv[k] == 0
    ensures Times(Combined(a, Tail(1, d1, i), Tail(1, dl, i), Tail(1, du, i), Tail(1, dv, i))) == INFINITY
  {
    TailZero(1, d1, i);
    TailZero(1, dl, i);
    TailZero(1, du, i);
    TailZero(1, dv, i);
    DivModUnique(0, N, 0, 0);
  }

  /** The shared doubling chain: one doubling a position, then a table entry for each nonzero digit. */
  method Interleave(w1: array<int>, bits1: nat, wl: array<int>, bitsL: nat,
                    u1: array<int>, bitsU: nat, v1: array<int>, bitsV: nat, preA: array<Point>,
                    preALam: array<Point>, preG: array<Point>, preG128: array<Point>, bits: nat,
                    ghost a: int, ghost s1: int, ghost sl: int, ghost u: int, ghost v: int)
    returns (r: Point)
    requires bits1 <= bits && bitsL <= bits && bitsU <= bits && bitsV <= bits
    requires Recoding(w1, bits1, WINDOW_A, s1) && Recoding(wl, bitsL, WINDOW_A, sl)
    requires Recoding(u1, bitsU, WINDOW_G, u) && Recoding(v1, bitsV, WINDOW_G, v)
    requires preA.Length == TABLE_SIZE_A && IsOddTable(preA, a)
    requires preALam.Length == TABLE_SIZE_A && IsOddTable(preALam, TimesLambda(a))
    requires preG.Length == TABLE_SIZE_G && IsOddTable(preG, 1)
    requires preG128.Length == TABLE_SIZE_G && IsOddTable(preG128, W2)
    ensures r == Times(Combined(a, s1, sl, u, v))
  {
    hide Times, Double, Combined, Tail, DigitAt, OddMultiple, TimesLambda;
    TableSizes(WINDOW_A, WINDOW_G);
    assert Pow2(1) == 2;
    r := INFINITY;
    var i: nat := bits;
    TailsEnd(a, w1[..], wl[..], u1[..], v1[..], i);
    while i > 0
      invariant r == Times(Combined(a, Tail(1, w1[..], i), Tail(1, wl[..], i), Tail(1, u1[..], i), Tail(1, v1[..], i)))
    {
      i := i - 1;
      ghost var t1, tl := Tail(1, w1[..], i + 1), Tail(1, wl[..], i + 1);
      ghost var tu, tv := Tail(1, u1[..], i + 1), Tail(1, v1[..], i + 1);
      ghost var e := Combined(a, t1, tl, tu, tv);
      ghost var n1, nl, nu, nv := DigitAt(w1[..], i), DigitAt(wl[..], i), DigitAt(u1[..], i), DigitAt(v1[..], i);
      r := Double(r);
      DoubleTimes(e);
      r := AddDigit(r, w1, bits1, i, preA, WINDOW_A, s1, a, 2 * e);
      r := AddDigit(r, wl, bitsL, i, preALam, WINDOW_A, sl, TimesLambda(a), 2 * e + n1 * a);
      r := AddDigit(r, u1, bitsU, i, preG, WINDOW_G, u, 1, 2 * e + n1 * a + nl * TimesLambda(a));
      r := AddDigit(r, v1, bitsV, i, preG128, WINDOW_G, v, W2, 2 * e + n1 * a + nl * TimesLambda(a) + nu * 1);
      CombinedStep(a, t1, tl, tu, tv, n1, nl, nu, nv);
      TailStep(1, w1[..], i);
      TailStep(1, wl[..], i);
      TailStep(1, u1[..], i);
      TailStep(1, v1[..], i);
    }
    TailWhole(1, w1[..]);
    TailWhole(1, wl[..]);
    TailWhole(1, u1[..]);
    TailWhole(1, v1[..]);
  }

  /** r = na * a + ng * G, for every pair of scalars and every point that is not infinity. */
  method Ecmult(ctx: Context, a: Point, na: Scalar, ng: Scalar) returns (r: Point)
    requires ctx.Built() && FullOrder(a) && na.Reduced() && ng.Reduced()
    ensures r == Add(Multiple(na.Value(), a), Multiple(ng.Value(), G))
  {
    hide Times, Multiple, Add, Combined, OddMultiple, Limbs4, ModN, TimesLambda, Pow2, Scalar.Value;
    var w1, bits1, wl, bitsL, s1, sl := RecodeSplit(na);
    var bits := if bitsL > bits1 then bitsL else bits1;
    var preA, preALam := PointTables(a);
    var u1, bitsU, v1, bitsV, u, v := RecodeHalves(ng);
    if bitsU > bits {
      bits := bitsU;
    }
    if bitsV > bits {
      bits := bitsV;
    }
    r := Interleave(w1, bits1, wl, bitsL, u1, bitsU, v1, bitsV, preA, preALam, ctx.preG, ctx.preG128, bits,
                    a, s1, sl, u, v);
    CombinedResult(a, na.Value(), s1, sl, ng.Value(), u, v);
  }
}

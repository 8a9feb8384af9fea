/** Fixed-pattern multiplication of one point, as used for secret scalars. */
module EcmultConst {
  import opened Words
  import opened Scalars
  import opened Group
  import opened Digits
  import opened WnafConst
  import opened Split
  import opened Ecmult

  /** No nonzero vector of the lattice x + lambda * y = 0 modulo N has both coordinates this small. */
  const SHORTEST: int := 0xC000_0000_0000_0000_0000_0000_0000_0000

  lemma NoShortVector(x: int, y: int)
    requires Abs(x) <= SHORTEST && Abs(y) <= SHORTEST
    requires Times(x + TimesLambda(y)) == INFINITY
    ensures x == 0 && y == 0
  {
    var k := TimesSplit(x + TimesLambda(y));
    ShortVector(x, y, k);
  }

  lemma ShortVector(x: int, y: int, k: int)
    requires -SHORTEST <= x <= SHORTEST && -SHORTEST <= y <= SHORTEST && x + TimesLambda(y) == k * N
    ensures x == 0 && y == 0
  {
    var p := TimesB2(k) - 0x0FCE9B1DD4EB7DD2718A2906787061B2 * y;
    var q := TimesMinusB1(k) - 0x4A5AC2BF7B5F37F9F1DB10D7A2A9C981 * y;
    assert TimesB2(x) - TimesA2(y) == p * N && TimesMinusB1(x) + TimesA1(y) == q * N;
    assert p == 0 && q == 0;
  }

  /** The running exponent: digits of the plain half over a, of the other over lambda * a. */
  function Pair(a: int, t1: int, tl: int): int {
    t1 * a + tl * TimesLambda(a)
  }

  lemma PairStep(a: int, t1: int, tl: int, n1: int, nl: int)
    ensures 16 * Pair(a, t1, tl) + n1 * a + nl * TimesLambda(a) == Pair(a, n1 + 16 * t1, nl + 16 * tl)
  {
    var l := TimesLambda(a);
    MulDistrib(n1, 16 * t1, a);
    MulDistrib(nl, 16 * tl, l);
    MulAssoc(16, t1, a);
    MulAssoc(16, tl, l);
  }

  lemma PairScale(a: int, t1: int, tl: int, c: int)
    ensures c * Pair(a, t1, tl) == Pair(a, c * t1, c * tl)
  {
    MulDistrib(t1 * a, tl * TimesLambda(a), c);
    MulAssoc(c, t1, a);
    MulAssoc(c, tl, TimesLambda(a));
  }

  lemma PairAsMultiple(a: int, t1: int, tl: int, k: int)
    requires k == t1 + TimesLambda(tl)
    ensures Pair(a, t1, tl) == k * a
  {
    MulDistrib(t1, TimesLambda(tl), a);
  }

  /** Short odd coefficients never cancel. */
  lemma PairNotInfinity(a: Point, t1: int, tl: int)
    requires FullOrder(a) && Abs(t1) <= SHORTEST && Abs(tl) <= SHORTEST && (t1 != 0 || tl != 0)
    ensures Times(Pair(a, t1, tl)) != INFINITY
  {
    var k := t1 + TimesLambda(tl);
    PairAsMultiple(a, t1, tl, k);
    hide Times, Pair, TimesLambda, FullOrder, Abs;
    MultipleOfFullOrder(a, k);
    if Times(k) == INFINITY {
      NoShortVector(t1, tl);
    }
  }

  /**
   * The digits above the lowest one spell a number at most a sixteenth of the whole, so it is nonzero and
   * stays short while it is doubled four times.
   */
  lemma {:induction false} TailIsShort(w: nat, d: seq<int>, i: nat)
    requires w == 4 && AllOdd(w, d) && Abs(Eval(w, d)) <= HALF1_BOUND + 2 && i < |d|
    ensures Abs(Tail(w, d, i)) <= HALF1_BOUND + 2 && Tail(w, d, i) % 2 == 1
    ensures i > 0 ==> 16 * Abs(Tail(w, d, i)) <= HALF1_BOUND + 17
  {
    hide Tail, Pow2, AllOdd, Abs, Eval;
    if i == 0 {
      TailWhole(w, d);
    } else {
      TailIsShort(w, d, i - 1);
      DigitAbove(w, d, i - 1);
      ShortAbove(Tail(w, d, i - 1), d[i - 1], Tail(w, d, i));
    }
    DigitAbove(w, d, i);
    OddAbove(Tail(w, d, i), d[i], Tail(w, d, i + 1));
  }

  lemma OddAbove(t: int, digit: int, above: int)
    requires t == digit + 16 * above && digit % 2 == 1
    ensures t % 2 == 1
  {
  }

  lemma ShortAbove(t: int, digit: int, above: int)
    requires Abs(t) <= HALF1_BOUND + 2 && t == digit + 16 * above && -15 <= digit <= 15
    ensures 16 * Abs(above) <= HALF1_BOUND + 17 && Abs(above) <= HALF1_BOUND + 2
  {
  }

  lemma DigitAbove(w: nat, d: seq<int>, i: nat)
    requires w == 4 && AllOdd(w, d) && i < |d|
    ensures Tail(w, d, i) == d[i] + 16 * Tail(w, d, i + 1) && d[i] % 2 == 1 && -15 <= d[i] <= 15
  {
    assert Pow2(w) == 16 by { assert Pow2(4) == 16; }
    assert OddBelow(w, d[i]);
    TailStep(w, d, i);
  }

  /** One of the four doublings between two digit positions: its operand is not infinity. */
  lemma DoublingAllowed(a: Point, t1: int, tl: int, c: int)
    requires FullOrder(a) && 16 * Abs(t1) <= HALF1_BOUND + 17 && 16 * Abs(tl) <= HALF1_BOUND + 17
    requires 1 <= c <= 8 && t1 != 0
    ensures Times(c * Pair(a, t1, tl)) != INFINITY
  {
    assert Abs(c * t1) <= 8 * Abs(t1) && Abs(c * tl) <= 8 * Abs(tl) && c * t1 != 0 by {
      MulLe(c, 8, Abs(t1));
      MulLe(c, 8, Abs(tl));
    }
    PairScale(a, t1, tl, c);
    PairNotInfinity(a, c * t1, c * tl);
  }

  ghost predicate NoInfinity(pre: array<Point>)
    reads pre
  {
    forall k :: 0 <= k < pre.Length ==> pre[k] != INFINITY
  }

  /** Reads the entry for an odd digit by scanning the whole table, then conditionally negates it. */
  method TableGetConst(pre: array<Point>, n: int, ghost base: int) returns (r: Point)
    requires OddBelow(WINDOW_A - 1, n) && pre.Length == TABLE_SIZE_A && IsOddTable(pre, base) && NoInfinity(pre)
    ensures r == Times(n * base) && r != INFINITY
  {
    DigitRange(n);
    var absN := n * ((if n > 0 then 1 else 0) * 2 - 1);
    assert absN == if n > 0 then n else 0 - n;
    var idxN := absN / 2;
    r := INFINITY;
    var m := 0;
    while m < TABLE_SIZE_A
      invariant 0 <= m <= TABLE_SIZE_A
      invariant idxN < m ==> r == pre[idxN]
    {
      if m == idxN {
        r := pre[m];
      }
      m := m + 1;
    }
    assert r == Times(absN * base);
    hide Times;
    if n != absN {
      NegTimes(absN * base);
      assert 0 - absN * base == n * base;
      NegNotInfinity(r);
      r := Neg(r);
    }
  }

  lemma DigitRange(n: int)
    requires OddBelow(WINDOW_A - 1, n)
    ensures -15 <= n <= 15 && n % 2 == 1
  {
    assert Pow2(4) == 16;
  }

  lemma NegNotInfinity(p: Point)
    requires p != INFINITY
    ensures Neg(p) != INFINITY
  {
    DivModUnique(0 - p, N, -1, N - p);
  }

  /** One half-length scalar in 33 odd digits of four bits. */
  method RecodeConst(q: Scalar) returns (wnaf: array<int>, skew: int)
    requires q.Reduced() && -HALF1_BOUND <= Signed(q.Value()) <= HALF1_BOUND
    modifies q
    ensures fresh(wnaf) && wnaf.Length == 33 && AllOdd(WINDOW_A - 1, wnaf[..])
    ensures skew == 1 + Signed(old(q.Value())) % 2 && Eval(WINDOW_A - 1, wnaf[..]) == Signed(old(q.Value())) + skew
    ensures Abs(Eval(WINDOW_A - 1, wnaf[..])) <= HALF1_BOUND + 2
  {
    hide Limbs4, Signed;
    assert WnafSize(WINDOW_A - 1) == 32;
    wnaf := new int[33](_ => 0);
    skew := WnafConst.WnafConst(wnaf, q, WINDOW_A - 1);
  }

  /** Split and recode both halves. */
  method RecodeBoth(scalar: Scalar)
    returns (wnaf1: array<int>, skew1: int, wnafLam: array<int>, skewLam: int, ghost s1: int, ghost sl: int)
    requires scalar.Reduced()
    ensures fresh(wnaf1) && wnaf1.Length == 33 && AllOdd(WINDOW_A - 1, wnaf1[..])
    ensures fresh(wnafLam) && wnafLam.Length == 33 && AllOdd(WINDOW_A - 1, wnafLam[..])
    ensures Eval(WINDOW_A - 1, wnaf1[..]) == s1 + skew1 && Abs(Eval(WINDOW_A - 1, wnaf1[..])) <= HALF1_BOUND + 2
    ensures Eval(WINDOW_A - 1, wnafLam[..]) == sl + skewLam && Abs(Eval(WINDOW_A - 1, wnafLam[..])) <= HALF1_BOUND + 2
    ensures skew1 == 1 + s1 % 2 && skewLam == 1 + sl % 2
    ensures scalar.Value() == ModN(s1 + TimesLambda(sl))
  {
    hide Limbs4, Signed, TimesLambda, ModN, Pow2, AllOdd;
    var q1 := new Scalar(0, 0, 0, 0);
    var qLam := new Scalar(0, 0, 0, 0);
    SplitLambda(q1, qLam, scalar);
    s1, sl := Signed(q1.Value()), Signed(qLam.Value());
    wnaf1, skew1 := RecodeConst(q1);
    wnafLam, skewLam := RecodeConst(qLam);
  }

  /** Four doublings of a sum whose coefficients are short. */
  method DoubleFourTimes(r: Point, ghost a: Point, ghost t1: int, ghost tl: int) returns (s: Point)
    requires FullOrder(a) && r == Times(Pair(a, t1, tl)) && t1 % 2 == 1
    requires 16 * Abs(t1) <= HALF1_BOUND + 17 && 16 * Abs(tl) <= HALF1_BOUND + 17
    ensures s == Times(16 * Pair(a, t1, tl))
  {
    hide Times, Double, Pair, Abs;
    s := r;
    var j := 0;
    ghost var e, c := Pair(a, t1, tl), 1;
    while j < WINDOW_A - 1
      invariant 0 <= j <= WINDOW_A - 1
      invariant s == Times(c * e)
      invariant c == [1, 2, 4, 8, 16][j]
    {
      DoublingAllowed(a, t1, tl, c);
      DoubleTimes(c * e);
      MulAssoc(2, c, e);
      s := DoubleNonzero(s);
      c := 2 * c;
      j := j + 1;
    }
  }

  /** One position: four doublings, then one entry of each table. */
  method Position(r: Point, n: int, nl: int, preA: array<Point>, preALam: array<Point>,
                  ghost a: Point, ghost t1: int, ghost tl: int)
    returns (s: Point)
    requires FullOrder(a) && r == Times(Pair(a, t1, tl)) && t1 % 2 == 1
    requires 16 * Abs(t1) <= HALF1_BOUND + 17 && 16 * Abs(tl) <= HALF1_BOUND + 17
    requires OddBelow(WINDOW_A - 1, n) && OddBelow(WINDOW_A - 1, nl)
    requires preA.Length == TABLE_SIZE_A && IsOddTable(preA, a) && NoInfinity(preA)
    requires preALam.Length == TABLE_SIZE_A && IsOddTable(preALam, TimesLambda(a)) && NoInfinity(preALam)
    ensures s == Times(Pair(a, n + 16 * t1, nl + 16 * tl))
  {
    hide Times, Double, Pair, OddMultiple, TimesLambda, Abs, OddBelow;
    ghost var x := Pair(a, t1, tl);
    s := DoubleFourTimes(r, a, t1, tl);
    var tmpa := TableGetConst(preA, n, a);
    AddTimes(16 * x, n * a);
    s := AddGe(s, tmpa);
    tmpa := TableGetConst(preALam, nl, TimesLambda(a));
    AddTimes(16 * x + n * a, nl * TimesLambda(a));
    s := AddGe(s, tmpa);
    PairStep(a, t1, tl, n, nl);
  }

  /** The top digits alone, then four doublings and one entry of each table per position. */
  method DigitLoop(wnaf1: array<int>, wnafLam: array<int>, preA: array<Point>, preALam: array<Point>,
                   ghost a: Point, ghost e: int)
    returns (r: Point)
    requires FullOrder(a) && e == Pair(a, Eval(WINDOW_A - 1, wnaf1[..]), Eval(WINDOW_A - 1, wnafLam[..]))
    requires wnaf1.Length == 33 && AllOdd(WINDOW_A - 1, wnaf1[..])
    requires Abs(Eval(WINDOW_A - 1, wnaf1[..])) <= HALF1_BOUND + 2
    requires wnafLam.Length == 33 && AllOdd(WINDOW_A - 1, wnafLam[..])
    requires Abs(Eval(WINDOW_A - 1, wnafLam[..])) <= HALF1_BOUND + 2
    requires preA.Length == TABLE_SIZE_A && IsOddTable(preA, a) && NoInfinity(preA)
    requires preALam.Length == TABLE_SIZE_A && IsOddTable(preALam, TimesLambda(a)) && NoInfinity(preALam)
    ensures r == Times(e)
  {
    ghost var w: nat := WINDOW_A - 1;
    ghost var d1, dl := wnaf1[..], wnafLam[..];
    assert Pow2(w) == 16 by { assert Pow2(4) == 16; }
    hide Times, Double, Pair, Tail, DigitAt, OddMultiple, TimesLambda, Abs, OddBelow;
    var i: nat := 32;
    r := TopDigits(wnaf1[i], wnafLam[i], preA, preALam, a);
    TopTail(w, d1);
    TopTail(w, dl);
    while i > 0
      invariant i <= 32 && r == Times(Pair(a, Tail(w, d1, i), Tail(w, dl, i)))
    {
      ghost var t1, tl := Tail(w, d1, i), Tail(w, dl, i);
      TailIsShort(w, d1, i);
      TailIsShort(w, dl, i);
      i := i - 1;
      assert OddBelow(w, d1[i]) && OddBelow(w, dl[i]);
      r := Position(r, wnaf1[i], wnafLam[i], preA, preALam, a, t1, tl);
      NextTail(w, d1, i);
      NextTail(w, dl, i);
    }
    TailWhole(w, d1);
    TailWhole(w, dl);
  }

  lemma TopTail(w: nat, d: seq<int>)
    requires |d| == 33
    ensures Tail(w, d, 32) == d[32]
  {
    TailStep(w, d, 32);
    assert Pow2(w) * 0 == 0;
  }

  lemma NextTail(w: nat, d: seq<int>, i: nat)
    requires i < |d| && Pow2(w) == 16
    ensures Tail(w, d, i) == d[i] + 16 * Tail(w, d, i + 1)
  {
    TailStep(w, d, i);
  }

  method TopDigits(n1: int, nl: int, preA: array<Point>, preALam: array<Point>, ghost a: Point) returns (r: Point)
    requires OddBelow(WINDOW_A - 1, n1) && OddBelow(WINDOW_A - 1, nl)
    requires preA.Length == TABLE_SIZE_A && IsOddTable(preA, a) && NoInfinity(preA)
    requires preALam.Length == TABLE_SIZE_A && IsOddTable(preALam, TimesLambda(a)) && NoInfinity(preALam)
    ensures r == Times(Pair(a, n1, nl))
  {
    r := TableGetConst(preA, n1, a);
    var tmpa := TableGetConst(preALam, nl, TimesLambda(a));
    AddTimes(n1 * a, nl * TimesLambda(a));
    r := AddGe(r, tmpa);
  }

  /** Minus a for an even half, minus 2a for an odd one: what the skew added. */
  method Correction(a: Point, skew: int) returns (c: Point)
    requires FullOrder(a) && 1 <= skew <= 2
    ensures c == Times((0 - skew) * a) && c != INFINITY
  {
    MultipleOfFullOrder(a, skew);
    DivModUnique(skew, N, 0, skew);
    TimesOfPoint(a);
    var a2 := Double(a);
    c := if skew == 2 then a2 else a;
    assert c == Times(skew * a) != INFINITY;
    NegTimes(skew * a);
    assert (0 - skew) * a == 0 - skew * a;
    NegNotInfinity(c);
    c := Neg(c);
  }

  /** The correction of the other half. */
  method CorrectionLambda(correction: Point, ghost a: Point, ghost k: int) returns (c: Point)
    requires FullOrder(a) && -2 <= k <= -1 && correction == Times(k * a)
    ensures c == Times(k * TimesLambda(a)) && c != INFINITY
  {
    hide Times, TimesLambda;
    c := MulLambda(correction);
    MultipleTimes(LAMBDA, k * a);
    LambdaCommutes(k, a);
    CoefficientNotZero(k);
    MultipleOfFullOrder(a, TimesLambda(k));
  }

  lemma WithoutSkew(a: Point, s1: int, sl: int, k1: int, kl: int, na: int)
    requires na == ModN(s1 + TimesLambda(sl))
    ensures Times(Pair(a, s1 + k1, sl + kl) + (0 - k1) * a + (0 - kl) * TimesLambda(a)) == Multiple(na, a)
  {
    CombinedResult(a, na, s1, sl, 0, 0, 0);
    MulDistrib(s1, k1, a);
    MulDistrib(sl, kl, TimesLambda(a));
    assert Combined(a, s1, sl, 0, 0) == Pair(a, s1 + k1, sl + kl) + (0 - k1) * a + (0 - kl) * TimesLambda(a);
    TimesOfPoint(INFINITY);
    TimesOfPoint(Multiple(na, a));
  }

  /**
   * r = scalar * a, for every scalar and every point that is not infinity. Every doubling and addition on the
   * way meets the non-infinity conditions of the formulae used.
   */
  method EcmultConst(a: Point, scalar: Scalar) returns (r: Point)
    requires FullOrder(a) && scalar.Reduced()
    ensures r == Multiple(scalar.Value(), a)
  {
    hide Times, Multiple, Add, Pair, OddMultiple, Limbs4, ModN, TimesLambda, Pow2, Scalar.Value, Abs, AllOdd;
    ghost var na := scalar.Value();
    var wnaf1, skew1, wnafLam, skewLam, s1, sl := RecodeBoth(scalar);
    var preA, preALam := PointTables(a);
    ghost var e := Pair(a, s1 + skew1, sl + skewLam);
    r := DigitLoop(wnaf1, wnafLam, preA, preALam, a, e);
    var correction := Correction(a, skew1);
    AddTimes(e, (0 - skew1) * a);
    r := AddGe(r, correction);
    correction := Correction(a, skewLam);
    correction := CorrectionLambda(correction, a, 0 - skewLam);
    AddTimes(e + (0 - skew1) * a, (0 - skewLam) * TimesLambda(a));
    r := AddGe(r, correction);
    WithoutSkew(a, s1, sl, skew1, skewLam, na);
  }
}

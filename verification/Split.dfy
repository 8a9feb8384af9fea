/** Splitting a scalar along the endomorphism into two half-length scalars. */
module Split {
  import opened Words
  import opened Scalars
  import opened Accumulator
  import opened Products

  // The constants of the split, as the multiplications they take part in. The lattice of (x, y) with
  // x + lambda * y = 0 modulo N has the basis (a1, b1), (a2, b2) with b1 negative and determinant N.
  function TimesLambda(x: int): int { 0x5363AD4CC05C30E0A5261C028812645A122E22EA20816678DF02967C1B23BD72 * x }

  function TimesA1(x: int): int { 0x3086D221A7D46BCDE86C90E49284EB15 * x }

  function TimesMinusB1(x: int): int { 0xE4437ED6010E88286F547FA90ABFE4C3 * x }

  function TimesA2(x: int): int { 0x114CA50F7A8E2F3F657C1108D9D44CFD8 * x }

  function TimesB2(x: int): int { 0x3086D221A7D46BCDE86C90E49284EB15 * x }

  function TimesMinusLambda(x: int): int { N * x - TimesLambda(x) }

  function TimesMinusB2(x: int): int { N * x - TimesB2(x) }

  function TimesG1(x: int): int { 0x3086D221A7D46BCDE86C90E49284EB153DAB * x }

  function TimesG2(x: int): int { 0xE4437ED6010E88286F547FA90ABFE4C42212 * x }

  const POW271: int := 0x8000_0000_0000_0000_0000_0000_0000_0000_0000_0000_0000_0000_0000_0000_0000_0000_0000
  const POW272: int := 0x1_0000_0000_0000_0000_0000_0000_0000_0000_0000_0000_0000_0000_0000_0000_0000_0000_0000

  /** 2^128 * 0.6355 and 2^128 * 0.5407: what the halves stay below. */
  const HALF1_BOUND: int := 0xA2B020C49BA5E353F7CED916872B020C
  const HALF2_BOUND: int := 0x8A6B50B0F27BB2FEC56D5CFAACD9E83E

  /** How far c = round(a * g1 / 2^272) can be from a * b2 / N: half a unit plus the error in g1. */
  lemma RoundingErrors(a: int, c1: int, c2: int)
    requires 0 <= a < N
    requires POW272 * c1 <= TimesG1(a) + POW271 < POW272 * c1 + POW272
    requires POW272 * c2 <= TimesG2(a) + POW271 < POW272 * c2 + POW272
    ensures -0x8001 * N <= 0x10000 * (TimesB2(a) - N * c1) <= 0x8001 * N
    ensures -0x8001 * N <= 0x10000 * (TimesMinusB1(a) - N * c2) <= 0x8001 * N
  {
  }

  /** The half-length residues: a - (c1*a1 + c2*a2) and -(c1*b1 + c2*b2). */
  function Half1(a: int, c1: int, c2: int): int { a - TimesA1(c1) - TimesA2(c2) }

  function Half2(c1: int, c2: int): int { TimesMinusB1(c1) - TimesB2(c2) }

  /** Both halves are combinations of the rounding errors by the lattice basis, hence short. */
  lemma HalvesAreShort(a: int, c1: int, c2: int)
    requires 0 <= a < N
    requires POW272 * c1 <= TimesG1(a) + POW271 < POW272 * c1 + POW272
    requires POW272 * c2 <= TimesG2(a) + POW271 < POW272 * c2 + POW272
    ensures -HALF1_BOUND <= Half1(a, c1, c2) <= HALF1_BOUND
    ensures -HALF2_BOUND <= Half2(c1, c2) <= HALF2_BOUND
  {
    RoundingErrors(a, c1, c2);
    var e1, e2 := TimesB2(a) - N * c1, TimesMinusB1(a) - N * c2;
    assert N * Half1(a, c1, c2) == TimesA1(e1) + TimesA2(e2);
    assert N * Half2(c1, c2) == TimesB2(e2) - TimesMinusB1(e1);
  }

  /** Modulo N, lambda * (-b1) is a1 and lambda * b2 is -a2, so the halves recombine to a. */
  lemma HalvesRecombine(a: int, c1: int, c2: int)
    ensures Half1(a, c1, c2) + TimesLambda(Half2(c1, c2))
         == a + N * (0x4A5AC2BF7B5F37F9F1DB10D7A2A9C981 * c1 - 0x0FCE9B1DD4EB7DD2718A2906787061B2 * c2)
  {
  }

  /** A residue with a short representative has that representative as its signed value. */
  lemma SignedUnique(v: int, k: int, t: int)
    requires 0 <= v < N && v == k + N * t && -W2 < k < W2
    ensures Signed(v) == k
  {
    assert t == if k >= 0 then 0 else 1;
  }

  /** r2 computed modulo N is Half2, and r1 computed as a - lambda * r2 modulo N is Half1. */
  lemma ModularHalves(a: int, c1: int, c2: int, r1: int, r2: int, t: int, u: int)
    requires 0 <= r1 < N && 0 <= r2 < N
    requires r2 == TimesMinusB1(c1) - TimesB2(c2) + N * t
    requires r1 == a - TimesLambda(r2) + N * u
    requires -W2 < Half1(a, c1, c2) < W2 && -W2 < Half2(c1, c2) < W2
    ensures Signed(r1) == Half1(a, c1, c2) && Signed(r2) == Half2(c1, c2)
  {
    SignedUnique(r2, Half2(c1, c2), t);
    HalvesRecombine(a, c1, c2);
    SignedUnique(r1, Half1(a, c1, c2), u - TimesLambda(t)
                 - (0x4A5AC2BF7B5F37F9F1DB10D7A2A9C981 * c1 - 0x0FCE9B1DD4EB7DD2718A2906787061B2 * c2));
  }

  /** x modulo N is x plus a multiple of N. */
  lemma ModWitness(x: int) returns (t: int)
    ensures ModN(x) == x + N * t
  {
    t := -(x / N);
    DivModOf(x, N);
  }

  /** The rounded quotient by 2^272. */
  predicate Rounds(c: int, x: int) {
    POW272 * c <= x + POW271 < POW272 * c + POW272
  }

  lemma RoundsBy(c: int, x: int, shift: nat)
    requires shift == 272 && c == RoundedShift(x, shift)
    ensures Rounds(c, x)
  {
    Pow2At(shift);
    assert Pow2(shift) == 2 * Pow2(shift - 1);
    DivModOf(x + Pow2(shift - 1), Pow2(shift));
  }

  /** What the arithmetic of the split computes, residue by residue. */
  lemma SplitCorrect(a: int, c1: int, c2: int, p1: int, p2: int, over2: int, r2: int, q: int, over1: int, r1: int)
    requires 0 <= a < N && Rounds(c1, TimesG1(a)) && Rounds(c2, TimesG2(a))
    requires p1 == ModN(TimesMinusB1(c1)) && p2 == ModN(TimesMinusB2(c2)) && r2 == p1 + p2 - over2 * N
    requires q == ModN(TimesMinusLambda(r2)) && r1 == q + a - over1 * N
    requires 0 <= r1 < N && 0 <= r2 < N
    ensures -HALF1_BOUND <= Signed(r1) <= HALF1_BOUND && -HALF2_BOUND <= Signed(r2) <= HALF2_BOUND
    ensures ModN(Signed(r1) + TimesLambda(Signed(r2))) == a
  {
    var t1 := ModWitness(TimesMinusB1(c1));
    var t2 := ModWitness(TimesMinusB2(c2));
    var t3 := ModWitness(TimesMinusLambda(r2));
    HalvesAreShort(a, c1, c2);
    ModularHalves(a, c1, c2, r1, r2, t1 + c2 + t2 - over2, r2 + t3 - over1);
    HalvesRecombine(a, c1, c2);
    DivModUnique(Half1(a, c1, c2) + TimesLambda(Half2(c1, c2)), N,
                 0x4A5AC2BF7B5F37F9F1DB10D7A2A9C981 * c1 - 0x0FCE9B1DD4EB7DD2718A2906787061B2 * c2, a);
  }

  // The five constants, by limb.
  const MINUS_LAMBDA: int := 0xAC9C52B33FA3CF1F_5AD9E3FD77ED9BA4_A880B9FC8EC739C2_E0CFC810B51283CF
  const MINUS_B1: int := 0xE4437ED6010E8828_6F547FA90ABFE4C3
  const MINUS_B2: int := 0xFFFFFFFFFFFFFFFF_FFFFFFFFFFFFFFFE_8A280AC50774346D_D765CDA83DB1562C
  const G1: int := 0x3086_D221A7D46BCDE86C_90E49284EB153DAB
  const G2: int := 0xE443_7ED6010E88286F54_7FA90ABFE4C42212

  lemma ConstantProducts(x: int)
    ensures Prod(x, MINUS_LAMBDA) == TimesMinusLambda(x)
    ensures Prod(x, MINUS_B1) == TimesMinusB1(x) && Prod(x, MINUS_B2) == TimesMinusB2(x)
    ensures Prod(x, G1) == TimesG1(x) && Prod(x, G2) == TimesG2(x)
  {
  }

  /**
   * Splits a so that r1 + lambda * r2 = a modulo N with both halves, or their negations, short.
   */
  method SplitLambda(r1: Scalar, r2: Scalar, a: Scalar)
    requires r1 != a && r2 != a && r1 != r2 && a.Reduced()
    modifies r1, r2
    ensures r1.Reduced() && r2.Reduced()
    ensures -HALF1_BOUND <= Signed(r1.Value()) <= HALF1_BOUND
    ensures -HALF2_BOUND <= Signed(r2.Value()) <= HALF2_BOUND
    ensures ModN(Signed(r1.Value()) + TimesLambda(Signed(r2.Value()))) == a.Value()
  {
    var minusLambda, minusB1, minusB2, g1, g2 := Constants();
    hide Limbs4, TimesLambda, TimesMinusLambda, TimesMinusB1, TimesMinusB2, TimesG1, TimesG2;
    hide Signed, ModN, Prod, RoundedShift, Scalar.Value;
    var c1 := new Scalar(0, 0, 0, 0);
    var c2 := new Scalar(0, 0, 0, 0);
    ghost var v := a.Value();
    var shift: nat := 272;
    MulShiftVar(c1, a, g1, shift);
    MulShiftVar(c2, a, g2, shift);
    ghost var v1, v2 := c1.Value(), c2.Value();
    assert a.Value() == v;
    ConstantProducts(v);
    RoundsBy(v1, TimesG1(v), shift);
    RoundsBy(v2, TimesG2(v), shift);
    Mul(c1, c1, minusB1);
    Mul(c2, c2, minusB2);
    ghost var p1, p2 := c1.Value(), c2.Value();
    ConstantProducts(v1);
    ConstantProducts(v2);
    var over2 := r2.Add(c1, c2);
    ghost var w2 := r2.Value();
    assert a.Value() == v;
    Mul(r1, r2, minusLambda);
    ghost var q := r1.Value();
    ConstantProducts(w2);
    assert a.Value() == v;
    var over1 := r1.Add(r1, a);
    assert r2.Value() == w2;
    SplitCorrect(v, v1, v2, p1, p2, over2, w2, q, over1, r1.Value());
  }

  method Constants() returns (minusLambda: Scalar, minusB1: Scalar, minusB2: Scalar, g1: Scalar, g2: Scalar)
    ensures fresh(minusLambda) && fresh(minusB1) && fresh(minusB2) && fresh(g1) && fresh(g2)
    ensures minusLambda.Value() == MINUS_LAMBDA && minusB1.Value() == MINUS_B1 && minusB2.Value() == MINUS_B2
    ensures g1.Value() == G1 && g2.Value() == G2
  {
    minusLambda := new Scalar(0xE0CFC810B51283CF, 0xA880B9FC8EC739C2, 0x5AD9E3FD77ED9BA4, 0xAC9C52B33FA3CF1F);
    minusB1 := new Scalar(0x6F547FA90ABFE4C3, 0xE4437ED6010E8828, 0, 0);
    minusB2 := new Scalar(0xD765CDA83DB1562C, 0x8A280AC50774346D, 0xFFFFFFFFFFFFFFFE, 0xFFFFFFFFFFFFFFFF);
    g1 := new Scalar(0x90E49284EB153DAB, 0xD221A7D46BCDE86C, 0x3086, 0);
    g2 := new Scalar(0x7FA90ABFE4C42212, 0x7ED6010E88286F54, 0xE443, 0);
  }
}

/** Products of scalars: the exact 512-bit product, and its folding modulo the group order. */
module Products {
  import opened Words
  import opened Accumulator
  import opened Scalars

  /** (2^256 - 1)^2. */
  const MAX_512: int :=
    0xFFFFFFFFFFFFFFFF_FFFFFFFFFFFFFFFF_FFFFFFFFFFFFFFFF_FFFFFFFFFFFFFFFE
    * 0x1_0000000000000000_0000000000000000_0000000000000000_0000000000000000 + 1

  /** 2^256 * (1 + N_C), above every once-folded product. */
  const MAX_385: int :=
    0x1_4551231950B75FC4_402DA1732FC9BEC0_0000000000000000_0000000000000000_0000000000000000_0000000000000000

  /** The value of the eight-limb product buffer. */
  function Limbs8(l: seq<u64>): int
    requires |l| == 8
  {
    Limbs4(l[0], l[1], l[2], l[3]) + W4 * Limbs4(l[4], l[5], l[6], l[7])
  }

  /** The seven columns of a schoolbook product. */
  function Columns(p0: int, p1: int, p2: int, p3: int, p4: int, p5: int, p6: int): int {
    Limbs4(p0, p1, p2, p3) + W4 * Limbs4(p4, p5, p6, 0)
  }

  lemma ProdSym(x: int, y: int)
    ensures Prod(x, y) == Prod(y, x)
  {
  }

  lemma Distribute4(x: int, b0: int, b1: int, b2: int, b3: int)
    ensures Prod(x, Limbs4(b0, b1, b2, b3)) == Limbs4(Prod(x, b0), Prod(x, b1), Prod(x, b2), Prod(x, b3))
  {
  }

  /** Schoolbook multiplication: the product of two four-limb values is the sum of its seven columns. */
  lemma ProductByColumns(a0: int, a1: int, a2: int, a3: int, b0: int, b1: int, b2: int, b3: int)
    ensures Prod(Limbs4(a0, a1, a2, a3), Limbs4(b0, b1, b2, b3))
         == Columns(Prod(a0, b0), Prod(a0, b1) + Prod(a1, b0), Prod(a0, b2) + Prod(a1, b1) + Prod(a2, b0),
                    Prod(a0, b3) + Prod(a1, b2) + Prod(a2, b1) + Prod(a3, b0),
                    Prod(a1, b3) + Prod(a2, b2) + Prod(a3, b1), Prod(a2, b3) + Prod(a3, b2), Prod(a3, b3))
  {
    hide Prod;
    var a, b := Limbs4(a0, a1, a2, a3), Limbs4(b0, b1, b2, b3);
    ProdSym(a, b);
    ProdSym(b, a0);
    ProdSym(b, a1);
    ProdSym(b, a2);
    ProdSym(b, a3);
    Distribute4(b, a0, a1, a2, a3);
    Distribute4(a0, b0, b1, b2, b3);
    Distribute4(a1, b0, b1, b2, b3);
    Distribute4(a2, b0, b1, b2, b3);
    Distribute4(a3, b0, b1, b2, b3);
  }

  lemma ProductBelow(x: int, y: int)
    requires 0 <= x < W4 && 0 <= y < W4
    ensures 0 <= Prod(x, y) <= MAX_512
  {
    var m: int := 0xFFFF_FFFF_FFFF_FFFF_FFFF_FFFF_FFFF_FFFF_FFFF_FFFF_FFFF_FFFF_FFFF_FFFF_FFFF_FFFF;
    MulLe(x, m, y);
    MulLe(y, m, m);
    MulLe(0, x, y);
  }

  /** The four low columns and the carry into the fifth. */
  method LowColumns(a0: u64, a1: u64, a2: u64, a3: u64, b0: u64, b1: u64, b2: u64, b3: u64)
    returns (l0: u64, l1: u64, l2: u64, l3: u64, c0: u64, c1: u64)
    ensures Limbs4(l0, l1, l2, l3) + W4 * Acc(c0, c1, 0)
         == Limbs4(Prod(a0, b0), Prod(a0, b1) + Prod(a1, b0), Prod(a0, b2) + Prod(a1, b1) + Prod(a2, b0),
                   Prod(a0, b3) + Prod(a1, b2) + Prod(a2, b1) + Prod(a3, b0))
  {
    var c2: u32;
    c0, c1, c2 := 0, 0, 0;
    ProductFits(a0, b0);
    hide Prod;
    c0, c1 := MulAddFast(c0, c1, a0, b0);
    l0, c0, c1 := c0, c1, 0;
    c0, c1, c2 := MulAdd(c0, c1, c2, a0, b1);
    c0, c1, c2 := MulAdd(c0, c1, c2, a1, b0);
    l1, c0, c1, c2 := c0, c1, c2, 0;
    c0, c1, c2 := MulAdd(c0, c1, c2, a0, b2);
    c0, c1, c2 := MulAdd(c0, c1, c2, a1, b1);
    c0, c1, c2 := MulAdd(c0, c1, c2, a2, b0);
    l2, c0, c1, c2 := c0, c1, c2, 0;
    c0, c1, c2 := MulAdd(c0, c1, c2, a0, b3);
    c0, c1, c2 := MulAdd(c0, c1, c2, a1, b2);
    c0, c1, c2 := MulAdd(c0, c1, c2, a2, b1);
    c0, c1, c2 := MulAdd(c0, c1, c2, a3, b0);
    l3, c0, c1, c2 := c0, c1, c2, 0;
  }

  /** The columns above the fourth word, on top of the carry (c0, c1) out of the low ones. */
  method HighColumns(a1: u64, a2: u64, a3: u64, b1: u64, b2: u64, b3: u64, c0: u64, c1: u64)
    returns (l4: u64, l5: u64, l6: u64, l7: u64)
    requires Limbs4(Acc(c0, c1, 0) + Prod(a1, b3) + Prod(a2, b2) + Prod(a3, b1),
                    Prod(a2, b3) + Prod(a3, b2), Prod(a3, b3), 0) < W4
    ensures Limbs4(l4, l5, l6, l7)
         == Limbs4(Acc(c0, c1, 0) + Prod(a1, b3) + Prod(a2, b2) + Prod(a3, b1),
                   Prod(a2, b3) + Prod(a3, b2), Prod(a3, b3), 0)
  {
    var k0, k1, c2: u32 := c0, c1, 0;
    ProductFits(a3, b3);
    hide Prod;
    k0, k1, c2 := MulAdd(k0, k1, c2, a1, b3);
    k0, k1, c2 := MulAdd(k0, k1, c2, a2, b2);
    k0, k1, c2 := MulAdd(k0, k1, c2, a3, b1);
    l4, k0, k1, c2 := k0, k1, c2, 0;
    k0, k1, c2 := MulAdd(k0, k1, c2, a2, b3);
    k0, k1, c2 := MulAdd(k0, k1, c2, a3, b2);
    l5, k0, k1, c2 := k0, k1, c2, 0;
    k0, k1 := MulAddFast(k0, k1, a3, b3);
    l6, k0, k1 := k0, k1, 0;
    l7 := k0;
  }

  /** l := a * b exactly. */
  method Mul512(l: array<u64>, a: Scalar, b: Scalar)
    requires l.Length == 8
    modifies l
    ensures Limbs8(l[..]) == Prod(a.Value(), b.Value()) && 0 <= Limbs8(l[..]) <= MAX_512
  {
    var a0, a1, a2, a3, b0, b1, b2, b3 := a.d0, a.d1, a.d2, a.d3, b.d0, b.d1, b.d2, b.d3;
    ProductByColumns(a0, a1, a2, a3, b0, b1, b2, b3);
    ProductBelow(a.Value(), b.Value());
    hide Prod;
    var l0, l1, l2, l3, l4, l5, l6, l7, c0, c1;
    l0, l1, l2, l3, c0, c1 := LowColumns(a0, a1, a2, a3, b0, b1, b2, b3);
    l4, l5, l6, l7 := HighColumns(a1, a2, a3, b1, b2, b3, c0, c1);
    l[0], l[1], l[2], l[3], l[4], l[5], l[6], l[7] := l0, l1, l2, l3, l4, l5, l6, l7;
    assert l[..] == [l0, l1, l2, l3, l4, l5, l6, l7];
  }

  /** l := a * a, each cross product added once doubled. */
  method Sqr512(l: array<u64>, a: Scalar)
    requires l.Length == 8
    modifies l
    ensures Limbs8(l[..]) == Prod(a.Value(), a.Value())
  {
    var a0, a1, a2, a3 := a.d0, a.d1, a.d2, a.d3;
    ProductByColumns(a0, a1, a2, a3, a0, a1, a2, a3);
    ProductBelow(a.Value(), a.Value());
    CrossProducts(a0, a1, a2, a3);
    hide Prod;
    var l0, l1, l2, l3, l4, l5, l6, l7, c0, c1;
    l0, l1, l2, l3, c0, c1 := LowSquares(a0, a1, a2, a3);
    l4, l5, l6, l7 := HighSquares(a1, a2, a3, c0, c1);
    l[0], l[1], l[2], l[3], l[4], l[5], l[6], l[7] := l0, l1, l2, l3, l4, l5, l6, l7;
    assert l[..] == [l0, l1, l2, l3, l4, l5, l6, l7];
  }

  lemma CrossProducts(a0: int, a1: int, a2: int, a3: int)
    ensures Prod(a1, a0) == Prod(a0, a1) && Prod(a2, a0) == Prod(a0, a2) && Prod(a3, a0) == Prod(a0, a3)
    ensures Prod(a2, a1) == Prod(a1, a2) && Prod(a3, a1) == Prod(a1, a3) && Prod(a3, a2) == Prod(a2, a3)
  {
  }

  method LowSquares(a0: u64, a1: u64, a2: u64, a3: u64)
    returns (l0: u64, l1: u64, l2: u64, l3: u64, c0: u64, c1: u64)
    ensures Limbs4(l0, l1, l2, l3) + W4 * Acc(c0, c1, 0)
         == Limbs4(Prod(a0, a0), 2 * Prod(a0, a1), 2 * Prod(a0, a2) + Prod(a1, a1), 2 * Prod(a0, a3) + 2 * Prod(a1, a2))
  {
    var c2: u32;
    c0, c1, c2 := 0, 0, 0;
    ProductFits(a0, a0);
    hide Prod;
    c0, c1 := MulAddFast(c0, c1, a0, a0);
    l0, c0, c1 := c0, c1, 0;
    c0, c1, c2 := MulAdd2(c0, c1, c2, a0, a1);
    l1, c0, c1, c2 := c0, c1, c2, 0;
    c0, c1, c2 := MulAdd2(c0, c1, c2, a0, a2);
    c0, c1, c2 := MulAdd(c0, c1, c2, a1, a1);
    l2, c0, c1, c2 := c0, c1, c2, 0;
    c0, c1, c2 := MulAdd2(c0, c1, c2, a0, a3);
    c0, c1, c2 := MulAdd2(c0, c1, c2, a1, a2);
    l3, c0, c1, c2 := c0, c1, c2, 0;
  }

  method HighSquares(a1: u64, a2: u64, a3: u64, c0: u64, c1: u64)
    returns (l4: u64, l5: u64, l6: u64, l7: u64)
    requires Limbs4(Acc(c0, c1, 0) + 2 * Prod(a1, a3) + Prod(a2, a2), 2 * Prod(a2, a3), Prod(a3, a3), 0) < W4
    ensures Limbs4(l4, l5, l6, l7)
         == Limbs4(Acc(c0, c1, 0) + 2 * Prod(a1, a3) + Prod(a2, a2), 2 * Prod(a2, a3), Prod(a3, a3), 0)
  {
    var k0, k1, c2: u32 := c0, c1, 0;
    ProductFits(a3, a3);
    hide Prod;
    k0, k1, c2 := MulAdd2(k0, k1, c2, a1, a3);
    k0, k1, c2 := MulAdd(k0, k1, c2, a2, a2);
    l4, k0, k1, c2 := k0, k1, c2, 0;
    k0, k1, c2 := MulAdd2(k0, k1, c2, a2, a3);
    l5, k0, k1, c2 := k0, k1, c2, 0;
    k0, k1 := MulAddFast(k0, k1, a3, a3);
    l6, k0, k1 := k0, k1, 0;
    l7 := k0;
  }

  /** n * (2^256 - N). */
  function TimesNC(n: int): int {
    0x1_4551231950B75FC4_402DA1732FC9BEBF * n
  }

  /** The same by columns. */
  lemma FoldColumns(n0: int, n1: int, n2: int, n3: int)
    ensures TimesNC(Limbs4(n0, n1, n2, n3))
         == Columns(Prod(n0, N_C_0), Prod(n1, N_C_0) + Prod(n0, N_C_1), Prod(n2, N_C_0) + Prod(n1, N_C_1) + n0,
                    Prod(n3, N_C_0) + Prod(n2, N_C_1) + n1, Prod(n3, N_C_1) + n2, n3, 0)
  {
  }

  lemma Limbs4Bound(x0: u64, x1: u64, x2: u64, x3: u64)
    ensures 0 <= Limbs4(x0, x1, x2, x3) < W4
  {
  }

  /** The first three words of a fold: l + n * (2^256 - N), with the carry left in (c0, c1). */
  method FoldLow(l0: u64, l1: u64, l2: u64, n0: u64, n1: u64, n2: u64)
    returns (m0: u64, m1: u64, m2: u64, c0: u64, c1: u64)
    ensures Limbs4(m0, m1, m2, Acc(c0, c1, 0))
         == Limbs4(l0 + Prod(n0, N_C_0), l1 + Prod(n1, N_C_0) + Prod(n0, N_C_1),
                   l2 + Prod(n2, N_C_0) + Prod(n1, N_C_1) + n0, 0)
    ensures c1 <= 4
  {
    var c2: u32;
    c0, c1, c2 := l0, 0, 0;
    ProductFits(n0, N_C_0);
    hide Prod;
    c0, c1 := MulAddFast(c0, c1, n0, N_C_0);
    m0, c0, c1 := c0, c1, 0;
    c0, c1 := SumAddFast(c0, c1, l1);
    c0, c1, c2 := MulAdd(c0, c1, c2, n1, N_C_0);
    c0, c1, c2 := MulAdd(c0, c1, c2, n0, N_C_1);
    m1, c0, c1, c2 := c0, c1, c2, 0;
    c0, c1, c2 := SumAdd(c0, c1, c2, l2);
    c0, c1, c2 := MulAdd(c0, c1, c2, n2, N_C_0);
    c0, c1, c2 := MulAdd(c0, c1, c2, n1, N_C_1);
    c0, c1, c2 := SumAdd(c0, c1, c2, n0);
    m2, c0, c1, c2 := c0, c1, c2, 0;
  }

  /** 512 to 385 bits: low half plus high half times 2^256 - N. */
  method Fold512(l0: u64, l1: u64, l2: u64, l3: u64, n0: u64, n1: u64, n2: u64, n3: u64)
    returns (m0: u64, m1: u64, m2: u64, m3: u64, m4: u64, m5: u64, m6: u64)
    ensures Columns(m0, m1, m2, m3, m4, m5, m6) == Limbs4(l0, l1, l2, l3) + TimesNC(Limbs4(n0, n1, n2, n3))
    ensures m6 <= 1
  {
    FoldColumns(n0, n1, n2, n3);
    Limbs4Bound(l0, l1, l2, l3);
    Limbs4Bound(n0, n1, n2, n3);
    hide Prod, TimesNC;
    var c0, c1, c2: u32;
    m0, m1, m2, c0, c1 := FoldLow(l0, l1, l2, n0, n1, n2);
    c2 := 0;
    c0, c1, c2 := SumAdd(c0, c1, c2, l3);
    c0, c1, c2 := MulAdd(c0, c1, c2, n3, N_C_0);
    c0, c1, c2 := MulAdd(c0, c1, c2, n2, N_C_1);
    c0, c1, c2 := SumAdd(c0, c1, c2, n1);
    m3, c0, c1, c2 := c0, c1, c2, 0;
    c0, c1, c2 := MulAdd(c0, c1, c2, n3, N_C_1);
    c0, c1, c2 := SumAdd(c0, c1, c2, n2);
    m4, c0, c1, c2 := c0, c1, c2, 0;
    c0, c1 := SumAddFast(c0, c1, n3);
    m5, c0, c1 := c0, c1, 0;
    m6 := c0;
    FoldBound(Limbs4(l0, l1, l2, l3), Limbs4(n0, n1, n2, n3), m0, m1, m2, m3, m4, m5, m6);
  }

  lemma FoldBound(low: int, n: int, m0: u64, m1: u64, m2: u64, m3: u64, m4: u64, m5: u64, m6: u64)
    requires 0 <= low < W4 && 0 <= n < W4 && Columns(m0, m1, m2, m3, m4, m5, m6) == low + TimesNC(n)
    ensures m6 <= 1
  {
  }

  /** 385 to 258 bits. */
  method Fold385(m0: u64, m1: u64, m2: u64, m3: u64, m4: u64, m5: u64, m6: u64)
    returns (p0: u64, p1: u64, p2: u64, p3: u64, p4: u64)
    requires m6 <= 1 && Columns(m0, m1, m2, m3, m4, m5, m6) < MAX_385
    ensures Limbs4(p0, p1, p2, p3) + W4 * p4 == Limbs4(m0, m1, m2, m3) + TimesNC(Limbs4(m4, m5, m6, 0))
    ensures p4 <= 2
  {
    Limbs4Bound(m0, m1, m2, m3);
    FoldedPart(m0, m1, m2, m3, m4, m5, m6);
    hide Prod, TimesNC, Columns;
    var c0, c1;
    p0, p1, p2, c0, c1 := FoldLow(m0, m1, m2, m4, m5, m6);
    p3, p4 := FoldTop(c0, c1, m3, m5, m6);
    FoldBound2(Limbs4(m0, m1, m2, m3), Limbs4(m4, m5, m6, 0), p0, p1, p2, p3, p4);
  }

  /** The last word of the second fold and what overflows it. */
  method FoldTop(c0: u64, c1: u64, m3: u64, m5: u64, m6: u64) returns (p3: u64, p4: u64)
    requires c1 <= 4 && m6 <= 1 && 0 <= Prod(m6, N_C_1) < W
    ensures p3 + 0x1_0000_0000_0000_0000 * p4
         == Acc(c0, c1, 0) + m3 + Prod(m6, N_C_1) + m5 + 0x1_0000_0000_0000_0000 * m6
  {
    hide Prod;
    var k0, k1 := SumAddFast(c0, c1, m3);
    k0, k1 := MulAddFast(k0, k1, m6, N_C_1);
    k0, k1 := SumAddFast(k0, k1, m5);
    p3, k0, k1 := k0, k1, 0;
    p4 := k0 + m6;
  }

  lemma FoldedPart(m0: u64, m1: u64, m2: u64, m3: u64, m4: u64, m5: u64, m6: u64)
    requires m6 <= 1 && Columns(m0, m1, m2, m3, m4, m5, m6) < MAX_385
    ensures 0 <= Limbs4(m4, m5, m6, 0) <= 1 + N_C
    ensures 0 <= Prod(m6, N_C_1) < W
    ensures TimesNC(Limbs4(m4, m5, m6, 0))
         == Limbs4(Prod(m4, N_C_0), Prod(m5, N_C_0) + Prod(m4, N_C_1), Prod(m6, N_C_0) + Prod(m5, N_C_1) + m4,
                   Prod(m6, N_C_1) + m5) + W4 * m6
  {
    FoldColumns(m4, m5, m6, 0);
  }

  lemma FoldBound2(low: int, n: int, p0: u64, p1: u64, p2: u64, p3: u64, p4: int)
    requires 0 <= low < W4 && 0 <= n <= 1 + N_C && Limbs4(p0, p1, p2, p3) + W4 * p4 == low + TimesNC(n)
    ensures p4 <= 2
  {
  }

  /** 258 to 256 bits and a carry. */
  method Fold258(p0: u64, p1: u64, p2: u64, p3: u64, p4: u64) returns (r0: u64, r1: u64, r2: u64, r3: u64, c: u64)
    requires p4 <= 2
    ensures Limbs4(r0, r1, r2, r3) + W4 * c == Limbs4(p0, p1, p2, p3) + TimesNC(p4)
  {
    r0, c := TakeLimb(p0 + N_C_0 * p4);
    r1, c := TakeLimb(c + p1 + N_C_1 * p4);
    r2, c := TakeLimb(c + p2 + p4);
    r3, c := TakeLimb(c + p3);
  }

  /** r := l modulo N, by three folds and a conditional subtraction. */
  method Reduce512(r: Scalar, l: array<u64>)
    requires l.Length == 8
    modifies r
    ensures r.Value() == ModN(Limbs8(l[..]))
  {
    ghost var x := Limbs8(l[..]);
    ghost var low, high := Limbs4(l[0], l[1], l[2], l[3]), Limbs4(l[4], l[5], l[6], l[7]);
    assert x == low + W4 * high;
    Limbs4Bound(l[0], l[1], l[2], l[3]);
    Limbs4Bound(l[4], l[5], l[6], l[7]);
    hide TimesNC, Columns;
    var m0, m1, m2, m3, m4, m5, m6 := Fold512(l[0], l[1], l[2], l[3], l[4], l[5], l[6], l[7]);
    ghost var mlow, mhigh := Limbs4(m0, m1, m2, m3), Limbs4(m4, m5, m6, 0);
    OnceFolded(low, high, m0, m1, m2, m3, m4, m5, m6);
    var p0, p1, p2, p3, p4 := Fold385(m0, m1, m2, m3, m4, m5, m6);
    ghost var plow := Limbs4(p0, p1, p2, p3);
    Limbs4Bound(p0, p1, p2, p3);
    var c;
    r.d0, r.d1, r.d2, r.d3, c := Fold258(p0, p1, p2, p3, p4);
    ghost var v := r.Value();
    var over := r.CheckOverflow();
    LastOverflow(plow, p4, v, c, over);
    ghost var dropped;
    over, dropped := r.Reduce(c + over);
    Residue(x, low, high, mlow, mhigh, plow, p4, v, c, over, dropped, r.Value());
    assert l[..] == old(l[..]);
  }

  lemma OnceFolded(low: int, high: int, m0: u64, m1: u64, m2: u64, m3: u64, m4: u64, m5: u64, m6: u64)
    requires 0 <= low < W4 && 0 <= high < W4
    requires Columns(m0, m1, m2, m3, m4, m5, m6) == low + TimesNC(high)
    ensures Columns(m0, m1, m2, m3, m4, m5, m6) < MAX_385
    ensures Columns(m0, m1, m2, m3, m4, m5, m6) == Limbs4(m0, m1, m2, m3) + W4 * Limbs4(m4, m5, m6, 0)
  {
  }

  /** The carry and the overflow test are never both set. */
  lemma LastOverflow(plow: int, p4: int, v: int, c: int, over: int)
    requires 0 <= plow < W4 && 0 <= p4 <= 2 && 0 <= v < W4 && 0 <= c
    requires v + W4 * c == plow + TimesNC(p4) && over == if v >= N then 1 else 0
    ensures 0 <= c + over <= 1
  {
  }

  lemma Residue(x: int, low: int, high: int, mlow: int, mhigh: int, plow: int, p4: int, v: int, c: int,
                over: int, dropped: int, r: int)
    requires x == low + W4 * high && mlow + W4 * mhigh == low + TimesNC(high)
    requires plow + W4 * p4 == mlow + TimesNC(mhigh)
    requires v + W4 * c == plow + TimesNC(p4)
    requires 0 <= over <= 1 && r + W4 * dropped == v + over * N_C && 0 <= r < W4 && 0 <= v < W4
    requires c == 1 ==> over == 1 && v < N
    requires c == 0 ==> over == if v >= N then 1 else 0
    requires 0 <= c <= 1 && 0 <= plow < W4 && 0 <= p4 <= 2
    ensures r == ModN(x)
  {
    assert dropped == over - c && 0 <= r < N;
    var k := high + mhigh + p4 + over;
    assert x == k * N + r;
    DivModUnique(x, N, k, r);
  }

  /** The product modulo N; the result may share storage with either operand. */
  method Mul(r: Scalar, a: Scalar, b: Scalar)
    modifies r
    ensures r.Value() == ModN(Prod(old(a.Value()), old(b.Value())))
  {
    var l := new u64[8];
    Mul512(l, a, b);
    Reduce512(r, l);
  }

  method Sqr(r: Scalar, a: Scalar)
    modifies r
    ensures r.Value() == ModN(Prod(old(a.Value()), old(a.Value())))
  {
    var l := new u64[8];
    Sqr512(l, a);
    Reduce512(r, l);
  }

  /** The words from k upwards, as a number. */
  ghost function Above(l: seq<u64>, k: nat): int
    decreases |l| - k
  {
    if k >= |l| then 0 else l[k] + 0x1_0000_0000_0000_0000 * Above(l, k + 1)
  }

  /** Cutting the buffer below word k is division by 2^(64 k). */
  lemma {:induction false} CutAt(l: seq<u64>, k: nat) returns (lo: int)
    requires k <= |l|
    ensures Above(l, 0) == Above(l, k) * Pow2(64 * k) + lo && 0 <= lo < Pow2(64 * k)
  {
    if k == 0 {
      lo := 0;
      assert Pow2(0) == 1;
    } else {
      var lo' := CutAt(l, k - 1);
      var m := Pow2(64 * (k - 1));
      Pow2At(64 + 0 * k);
      Pow2Sum(64 * (k - 1), 64, 64 * k, m, W);
      lo := lo' + l[k - 1] * m;
      CutStep(Above(l, k - 1), l[k - 1], Above(l, k), m, lo');
    }
  }

  lemma CutStep(y: int, limb: u64, above: int, m: int, lo: int)
    requires y == limb + 0x1_0000_0000_0000_0000 * above && 0 <= lo < m
    ensures y * m + lo == above * (m * W) + (lo + limb * m) && 0 <= lo + limb * m < m * W
  {
    MulDistrib(limb, 0x1_0000_0000_0000_0000 * above, m);
    MulLe(limb, W - 1, m);
    MulLe(0, limb, m);
    assert above * (m * W) == 0x1_0000_0000_0000_0000 * above * m by { MulAssoc(above, m, W); }
  }

  lemma AboveIsLimbs8(l: seq<u64>)
    requires |l| == 8
    ensures Above(l, 0) == Limbs8(l)
  {
    var a4 := FourWordsAbove(l, 4, 0);
    var a0 := FourWordsAbove(l, 0, a4);
  }

  lemma FourWordsAbove(l: seq<u64>, k: nat, above: int) returns (a: int)
    requires k + 4 <= |l| && Above(l, k + 4) == above
    ensures a == Above(l, k) == Limbs4(l[k], l[k + 1], l[k + 2], l[k + 3]) + W4 * above
  {
    var a3 := l[k + 3] + 0x1_0000_0000_0000_0000 * above;
    assert a3 == Above(l, k + 3);
    var a2 := l[k + 2] + 0x1_0000_0000_0000_0000 * a3;
    assert a2 == Above(l, k + 2);
    var a1 := l[k + 1] + 0x1_0000_0000_0000_0000 * a2;
    assert a1 == Above(l, k + 1);
    a := l[k] + 0x1_0000_0000_0000_0000 * a1;
  }

  function WordAt(l: seq<u64>, i: nat): u64 {
    if i < |l| then l[i] else 0
  }

  lemma FourWords(l: seq<u64>, k: nat)
    requires |l| == 8 && 4 <= k <= 8
    ensures Above(l, k) == Limbs4(WordAt(l, k), WordAt(l, k + 1), WordAt(l, k + 2), WordAt(l, k + 3))
  {
    assert Above(l, 8) == 0 && Above(l, 7) == l[7] && Above(l, 6) == l[6] + W * l[7];
  }

  /** Word i of the buffer shifted right by s, refilled from word i + 1; past the end both are zero. */
  method ShiftedWord(l: array<u64>, i: nat, s: nat) returns (w: u64)
    requires l.Length == 8 && s < 64
    ensures w * Pow2(s) + WordAt(l[..], i) % Pow2(s) == WordAt(l[..], i) + W * (WordAt(l[..], i + 1) % Pow2(s))
  {
    if i >= 8 {
      w := 0;
      DivModUnique(0, Pow2(s), 0, 0);
    } else if s == 0 {
      w := l[i];
      Pow2At(s);
    } else {
      w := ShiftedLimb(l[i], if i + 1 < 8 then l[i + 1] else 0, s);
    }
  }

  function ShiftedDown(x: int, shift: nat): int {
    x / Pow2(shift)
  }

  /** x / 2^shift to the nearest integer, ties upward. */
  function RoundedShift(x: int, shift: nat): int
    requires shift > 0
  {
    (x + Pow2(shift - 1)) / Pow2(shift)
  }

  lemma Quotient(l: seq<u64>, shift: nat, w0: u64, w1: u64, w2: u64, w3: u64)
    requires |l| == 8 && 256 <= shift <= 512
    requires var q, p := shift / 64, Pow2(shift % 64);
             && w0 * p + WordAt(l, q) % p == WordAt(l, q) + W * (WordAt(l, q + 1) % p)
             && w1 * p + WordAt(l, q + 1) % p == WordAt(l, q + 1) + W * (WordAt(l, q + 2) % p)
             && w2 * p + WordAt(l, q + 2) % p == WordAt(l, q + 2) + W * (WordAt(l, q + 3) % p)
             && w3 * p + WordAt(l, q + 3) % p == WordAt(l, q + 3) + W * (WordAt(l, q + 4) % p)
    ensures Limbs4(w0, w1, w2, w3) == ShiftedDown(Limbs8(l), shift)
  {
    var q, p := shift / 64, Pow2(shift % 64);
    AboveIsLimbs8(l);
    var lo := CutAt(l, q);
    Pow2Sum(64 * q, shift % 64, shift, Pow2(64 * q), p);
    Shifted(Limbs8(l), lo, Pow2(64 * q), Above(l, q), p);
    FourWords(l, q);
    DivModUnique(0, p, 0, 0);
    ShiftedLimbs(WordAt(l, q), WordAt(l, q + 1), WordAt(l, q + 2), WordAt(l, q + 3), w0, w1, w2, w3, p);
    DivModUnique(Above(l, q), p, Limbs4(w0, w1, w2, w3), WordAt(l, q) % p);
  }

  /** The highest bit shifted out decides the rounding. */
  lemma RoundingBit(l: seq<u64>, shift: nat)
    requires |l| == 8 && 256 <= shift <= 512 && 0 <= Limbs8(l) <= MAX_512
    ensures var bit := BitsOf(l[(shift - 1) / 64], (shift - 1) % 64, 1);
            0 <= bit <= 1 && ShiftedDown(Limbs8(l), shift) + bit == RoundedShift(Limbs8(l), shift)
    ensures ShiftedDown(Limbs8(l), shift) + 1 < W4
  {
    hide Limbs8;
    var k, j := (shift - 1) / 64, (shift - 1) % 64;
    var x, h := Limbs8(l), Pow2(shift - 1);
    assert BitsOf(l[k], j, 1) == x / h % 2 by {
      AboveIsLimbs8(l);
      var lo := CutAt(l, k);
      Pow2Sum(64 * k, j, shift - 1, Pow2(64 * k), Pow2(j));
      Pow2At(j / 64 + 1);
      BitsInWord(x, lo, Pow2(64 * k), Above(l, k), l[k], Above(l, k + 1), j, 1);
    }
    assert x / (2 * h) + x / h % 2 == (x + h) / (2 * h) by { RoundedQuotient(x, h); }
    assert x / Pow2(shift) + 1 < W4 by {
      Pow2Monotone(256, shift);
      Pow2At(256 + 0 * k);
      QuotientBelow(x, Pow2(shift));
    }
  }

  lemma QuotientBelow(x: int, m: int)
    requires 0 <= x <= MAX_512 && m >= W4
    ensures x / m + 1 < W4
  {
    DivModOf(x, m);
    var q := x / m;
    if q > W4 - 2 {
      MulLe(W4, m, q);
    }
  }

  /** The buffer shifted right by 256 to 512 bits, refilling each word from the next. */
  method ShiftBuffer(l: array<u64>, shift: nat) returns (w0: u64, w1: u64, w2: u64, w3: u64)
    requires l.Length == 8 && 256 <= shift <= 512
    ensures Limbs4(w0, w1, w2, w3) == ShiftedDown(Limbs8(l[..]), shift)
  {
    hide Limbs4, Limbs8, WordAt;
    var q, s := shift / 64, shift % 64;
    w0 := ShiftedWord(l, q, s);
    w1 := ShiftedWord(l, q + 1, s);
    w2 := ShiftedWord(l, q + 2, s);
    w3 := ShiftedWord(l, q + 3, s);
    Quotient(l[..], shift, w0, w1, w2, w3);
  }

  /** r := a * b / 2^shift, rounded to the nearest integer. */
  method MulShiftVar(r: Scalar, a: Scalar, b: Scalar, shift: nat)
    requires 256 <= shift <= 512
    modifies r
    ensures r.Value() == RoundedShift(Prod(old(a.Value()), old(b.Value())), shift)
  {
    var l := new u64[8];
    hide Limbs4, Limbs8, Prod, BitsOf, ShiftedDown, RoundedShift;
    Mul512(l, a, b);
    RoundingBit(l[..], shift);
    var w0, w1, w2, w3 := ShiftBuffer(l, shift);
    var bit := BitsOf(l[(shift - 1) / 64], (shift - 1) % 64, 1);
    r.d0, r.d1, r.d2, r.d3 := w0, w1, w2, w3;
    CaddOne(r, bit);
  }

  /** cadd_bit at bit 0. */
  method CaddOne(r: Scalar, flag: int)
    requires 0 <= flag <= 1 && r.Value() + 1 < W4
    modifies r
    ensures r.Value() == old(r.Value()) + flag
  {
    assert Pow2(0) == 1;
    r.CaddBit(0, flag);
  }
}

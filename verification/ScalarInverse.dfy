/** The inverse of a scalar as its (N - 2)nd power, along an addition chain. */
module ScalarInverse {
  import opened Words
  import opened Accumulator
  import opened Scalars
  import opened Products
  import opened Powers

  /** x^e modulo N. */
  function PowN(x: int, e: nat): int { PowMod(N, x, e) }

  lemma PowNMul(x: int, e: nat, f: nat, g: nat, a: int, b: int)
    requires g == e + f && a == PowN(x, e) && b == PowN(x, f)
    ensures ModN(Prod(a, b)) == PowN(x, g)
  {
    PowModMul(N, x, e, f, a, b);
  }

  /** k squarings multiply the exponent by 2^k. */
  method SqrTimes(t: Scalar, k: nat, ghost x: int, ghost e: nat)
    requires t.Value() == PowN(x, e)
    modifies t
    ensures t.Value() == PowN(x, e * Pow2(k))
  {
    hide Limbs4, PowN, ModN, Prod, Scalar.Value;
    var i := 0;
    assert e * Pow2(0) == e;
    while i < k
      invariant 0 <= i <= k && t.Value() == PowN(x, e * Pow2(i))
    {
      ghost var f := e * Pow2(i);
      PowNMul(x, f, f, f + f, t.Value(), t.Value());
      Sqr(t, t);
      MulAssoc(e, 2, Pow2(i));
      assert f + f == e * Pow2(i + 1);
      i := i + 1;
    }
  }

  /** A window of the chain: k squarings, then one product; p is 2^k. */
  method Window(t: Scalar, k: nat, y: Scalar, ghost x: int, ghost e: nat, ghost p: nat, ghost d: nat)
    returns (ghost f: nat)
    requires t != y && t.Value() == PowN(x, e) && y.Value() == PowN(x, d) && p == Pow2(k)
    modifies t
    ensures t.Value() == PowN(x, f) && f == e * p + d
  {
    hide Limbs4, PowN, ModN, Prod, Scalar.Value;
    f := e * p + d;
    SqrTimes(t, k, x, e);
    PowNMul(x, e * Pow2(k), d, f, t.Value(), y.Value());
    Mul(t, t, y);
  }

  /** One block of ones: a shifted up by k, times the block of k ones. */
  method Block(r: Scalar, a: Scalar, k: nat, y: Scalar, ghost x: int, ghost n: nat)
    requires 1 <= k && r != y && r != a
    requires a.Value() == PowN(x, Ones(n)) && y.Value() == PowN(x, Ones(k))
    modifies r
    ensures r.Value() == PowN(x, Ones(n + k))
  {
    hide Limbs4, PowN, ModN, Prod, Ones, Pow2, Scalar.Value;
    ghost var e := Ones(n);
    PowNMul(x, e, e, e + e, a.Value(), a.Value());
    Sqr(r, a);
    assert e + e == 2 * e;
    SqrTimes(r, k - 1, x, 2 * e);
    ghost var f := 2 * e * Pow2(k - 1);
    PowNMul(x, f, Ones(k), f + Ones(k), r.Value(), y.Value());
    assert f + Ones(k) == Ones(n + k) by { Doubled(e, k); OnesJoin(n, k); }
    Mul(r, r, y);
  }

  lemma Doubled(e: nat, k: nat)
    requires k > 0
    ensures 2 * e * Pow2(k - 1) == e * Pow2(k)
  {
    MulAssoc(e, 2, Pow2(k - 1));
  }

  /** A block in a new scalar. */
  method NewBlock(a: Scalar, k: nat, y: Scalar, ghost x: int, ghost n: nat) returns (r: Scalar)
    requires 1 <= k && a.Value() == PowN(x, Ones(n)) && y.Value() == PowN(x, Ones(k))
    ensures fresh(r) && r.Value() == PowN(x, Ones(n + k))
  {
    hide Limbs4, PowN, Ones, Scalar.Value;
    r := new Scalar(0, 0, 0, 0);
    Block(r, a, k, y, x, n);
  }

  /** The blocks of ones the chain uses: x^(2^n - 1) for n = 2, 3, 4, 6, 8 and 127. */
  method Blocks(x: Scalar) returns (x2: Scalar, x3: Scalar, x4: Scalar, x6: Scalar, x8: Scalar, x127: Scalar)
    requires x.Reduced()
    ensures fresh(x2) && fresh(x3) && fresh(x4) && fresh(x6) && fresh(x8) && fresh(x127)
    ensures x127 != x2 && x127 != x3 && x127 != x4 && x127 != x6 && x127 != x8
    ensures ghost var v := x.Value();
            && x2.Value() == PowN(v, Ones(2)) && x3.Value() == PowN(v, Ones(3)) && x4.Value() == PowN(v, Ones(4))
            && x6.Value() == PowN(v, Ones(6)) && x8.Value() == PowN(v, Ones(8)) && x127.Value() == PowN(v, Ones(127))
  {
    ghost var v := x.Value();
    PowNOne(v);
    hide Limbs4, PowN, ModN, Prod, Ones, Pow2, Scalar.Value;
    x2 := NewBlock(x, 1, x, v, 1);
    x3 := NewBlock(x2, 1, x, v, 2);
    x4 := NewBlock(x3, 1, x, v, 3);
    x6 := NewBlock(x4, 2, x2, v, 4);
    var x7 := NewBlock(x6, 1, x, v, 6);
    x8 := NewBlock(x7, 1, x, v, 7);
    var x15 := NewBlock(x8, 7, x7, v, 8);
    var x30 := NewBlock(x15, 15, x15, v, 15);
    var x60 := NewBlock(x30, 30, x30, v, 30);
    var x120 := NewBlock(x60, 60, x60, v, 60);
    x127 := NewBlock(x120, 7, x7, v, 120);
  }

  lemma PowNOne(v: int)
    requires 0 <= v < N
    ensures v == PowN(v, Ones(1))
  {
    assert Ones(1) == 1 by { assert Pow2(1) == 2; }
    PowModOne(N, v);
    DivModUnique(v, N, 0, v);
  }

  /** The block lengths and shifts that occur, multiplied out. */
  lemma SmallPowers(t: nat, k: nat)
    requires t == 127 && k == 5
    ensures Pow2(2) == 4 && Pow2(3) == 8 && Pow2(4) == 16 && Pow2(k) == 32 && Pow2(k + 1) == 64 && Pow2(k + 3) == 256
    ensures Pow2(k + 4) == 512 && Pow2(k + 5) == 1024
    ensures Ones(1) == 1 && Ones(2) == 3 && Ones(3) == 7 && Ones(4) == 15 && Ones(k + 1) == 63 && Ones(k + 3) == 255
    ensures Ones(t) == 0x7FFF_FFFF_FFFF_FFFF_FFFF_FFFF_FFFF_FFFF
  {
    Pow2At(t + 1);
    assert Pow2(1) == 2;
  }

  // The rest of the exponent N - 2, below its 127 leading ones: each window shifts t and sets its low bits. t is
  // the only scalar written.

  method WindowsTo6(t: Scalar, x: Scalar, x3: Scalar, ghost v: int, ghost e: nat) returns (ghost f: nat)
    requires t != x && t != x3 && t.Value() == PowN(v, e)
    requires x.Value() == PowN(v, 1) && x3.Value() == PowN(v, 7)
    modifies t
    ensures t.Value() == PowN(v, f) && f == 0x10000 * e + 0x5D57
  {
    SmallPowers(127, 5);
    hide Limbs4, PowN, Pow2, Ones, Scalar.Value;
    f := e;
    f := Window(t, 2, x, v, f, 0x4, 1);
    f := Window(t, 4, x3, v, f, 0x10, 7);
    f := Window(t, 2, x, v, f, 0x4, 1);
    f := Window(t, 2, x, v, f, 0x4, 1);
    f := Window(t, 2, x, v, f, 0x4, 1);
    f := Window(t, 4, x3, v, f, 0x10, 7);
  }

  method WindowsTo12(t: Scalar, x: Scalar, x2: Scalar, x3: Scalar, ghost v: int, ghost e: nat) returns (ghost f: nat)
    requires t != x && t != x2 && t != x3 && t.Value() == PowN(v, e)
    requires x.Value() == PowN(v, 1) && x2.Value() == PowN(v, 3) && x3.Value() == PowN(v, 7)
    modifies t
    ensures t.Value() == PowN(v, f) && f == 0x100000 * e + 0x6E735
  {
    SmallPowers(127, 5);
    hide Limbs4, PowN, Pow2, Ones, Scalar.Value;
    f := e;
    f := Window(t, 3, x2, v, f, 0x8, 3);
    f := Window(t, 4, x3, v, f, 0x10, 7);
    f := Window(t, 5, x3, v, f, 0x20, 7);
    f := Window(t, 4, x2, v, f, 0x10, 3);
    f := Window(t, 2, x, v, f, 0x4, 1);
    f := Window(t, 2, x, v, f, 0x4, 1);
  }

  method WindowsTo17(t: Scalar, x: Scalar, x4: Scalar, ghost v: int, ghost e: nat) returns (ghost f: nat)
    requires t != x && t != x4 && t.Value() == PowN(v, e)
    requires x.Value() == PowN(v, 1) && x4.Value() == PowN(v, 15)
    modifies t
    ensures t.Value() == PowN(v, f) && f == 0x10000 * e + 0x7A45
  {
    SmallPowers(127, 5);
    hide Limbs4, PowN, Pow2, Ones, Scalar.Value;
    f := e;
    f := Window(t, 5, x4, v, f, 0x20, 15);
    f := Window(t, 2, x, v, f, 0x4, 1);
    f := Window(t, 3, x, v, f, 0x8, 1);
    f := Window(t, 4, x, v, f, 0x10, 1);
    f := Window(t, 2, x, v, f, 0x4, 1);
  }

  method WindowsTo22(t: Scalar, x: Scalar, x3: Scalar, x8: Scalar, ghost v: int, ghost e: nat) returns (ghost f: nat)
    requires t != x && t != x3 && t != x8 && t.Value() == PowN(v, e)
    requires x.Value() == PowN(v, 1) && x3.Value() == PowN(v, 7) && x8.Value() == PowN(v, 255)
    modifies t
    ensures t.Value() == PowN(v, f) && f == 0x10000000 * e + 0x1DDFE9
  {
    SmallPowers(127, 5);
    hide Limbs4, PowN, Pow2, Ones, Scalar.Value;
    f := e;
    f := Window(t, 10, x3, v, f, 0x400, 7);
    f := Window(t, 4, x3, v, f, 0x10, 7);
    f := Window(t, 9, x8, v, f, 0x200, 255);
    f := Window(t, 2, x, v, f, 0x4, 1);
    f := Window(t, 3, x, v, f, 0x8, 1);
  }

  method WindowsTo27(t: Scalar, x: Scalar, x2: Scalar, x4: Scalar, ghost v: int, ghost e: nat) returns (ghost f: nat)
    requires t != x && t != x2 && t != x4 && t.Value() == PowN(v, e)
    requires x.Value() == PowN(v, 1) && x2.Value() == PowN(v, 3) && x4.Value() == PowN(v, 15)
    modifies t
    ensures t.Value() == PowN(v, f) && f == 0x80000 * e + 0x17A33
  {
    SmallPowers(127, 5);
    hide Limbs4, PowN, Pow2, Ones, Scalar.Value;
    f := e;
    f := Window(t, 3, x, v, f, 0x8, 1);
    f := Window(t, 5, x4, v, f, 0x20, 15);
    f := Window(t, 2, x, v, f, 0x4, 1);
    f := Window(t, 5, x2, v, f, 0x20, 3);
    f := Window(t, 4, x2, v, f, 0x10, 3);
  }

  method WindowsTo32(t: Scalar, x: Scalar, x2: Scalar, ghost v: int, ghost e: nat) returns (ghost f: nat)
    requires t != x && t != x2 && t.Value() == PowN(v, e)
    requires x.Value() == PowN(v, 1) && x2.Value() == PowN(v, 3)
    modifies t
    ensures t.Value() == PowN(v, f) && f == 0x400000 * e + 0x103641
  {
    SmallPowers(127, 5);
    hide Limbs4, PowN, Pow2, Ones, Scalar.Value;
    f := e;
    f := Window(t, 2, x, v, f, 0x4, 1);
    f := Window(t, 8, x2, v, f, 0x100, 3);
    f := Window(t, 3, x2, v, f, 0x8, 3);
    f := Window(t, 3, x, v, f, 0x8, 1);
    f := Window(t, 6, x, v, f, 0x40, 1);
  }

  /** r = x^(N - 2) modulo N. */
  method Inverse(r: Scalar, x: Scalar)
    requires x.Reduced()
    modifies r
    ensures r.Value() == PowN(old(x.Value()), N - 2)
  {
    ghost var v := x.Value();
    var x2, x3, x4, x6, x8, t := Blocks(x);
    SmallPowers(127, 5);
    PowNOne(v);
    hide Limbs4, PowN, ModN, Prod, Pow2, Ones, Scalar.Value;
    ghost var e: nat := 0x7FFF_FFFF_FFFF_FFFF_FFFF_FFFF_FFFF_FFFF;
    e := WindowsTo6(t, x, x3, v, e);
    e := WindowsTo12(t, x, x2, x3, v, e);
    e := WindowsTo17(t, x, x4, v, e);
    e := WindowsTo22(t, x, x3, x8, v, e);
    e := WindowsTo27(t, x, x2, x4, v, e);
    e := WindowsTo32(t, x, x2, v, e);
    SqrTimes(t, 8, v, e);
    PowNMul(v, e * Pow2(8), 63, N - 2, t.Value(), x6.Value());
    Mul(r, t, x6);
  }

  /** Where Fermat's congruence holds, as it does for every nonzero residue of a prime, that power is the inverse. */
  lemma InverseByFermat(v: int, e: nat, g: nat, r: int)
    requires e == N - 2 && g == e + 1 && PowN(v, g) == 1 && r == PowN(v, e)
    ensures ModN(Prod(v, r)) == 1
  {
    hide PowMod;
    PowModInverts(N, v, e);
  }
}

/** Inverses and square roots of field elements by addition chains, and the inverses of a whole array at once. */
module FieldInverse {
  import opened Words
  import opened Accumulator
  import opened Powers
  import opened Field
  import opened FieldNormalize

  /** x^e modulo the field prime. */
  function PowP(x: int, e: nat): int { PowMod(P, x, e) }

  /** An element a multiplication accepts whose residue is x^e. */
  ghost predicate IsPower(t: Limbs, x: int, e: nat) {
    t.Magnitude(8) && ModP(t.Value()) == PowP(x, e)
  }

  /** The element a multiplication writes. */
  method FeMul(a: Limbs, b: Limbs) returns (r: Limbs)
    requires a.Magnitude(8) && b.Magnitude(8)
    ensures r.Magnitude(1) && r.Magnitude(8) && ModP(r.Value()) == ModP(Prod(a.Value(), b.Value()))
  {
    hide ModP, Prod, Limbs.Value, Cols;
    MultiplicationCorrect(a, b);
    hide Folded;
    r := Folded(Cols(a, b));
  }

  lemma ModPProduct(a: int, b: int)
    ensures ModP(Prod(a, b)) == ModP(Prod(ModP(a), ModP(b)))
  {
    MulMod(P, a, b);
  }

  lemma PowPMul(x: int, e: nat, f: nat, g: nat, a: int, b: int)
    requires g == e + f && a == PowP(x, e) && b == PowP(x, f)
    ensures ModP(Prod(a, b)) == PowP(x, g)
  {
    PowModMul(P, x, e, f, a, b);
  }

  method PowerMul(a: Limbs, b: Limbs, ghost x: int, ghost e: nat, ghost f: nat) returns (r: Limbs)
    requires IsPower(a, x, e) && IsPower(b, x, f)
    ensures IsPower(r, x, e + f) && r.Magnitude(1) && r.Magnitude(8)
  {
    hide ModP, Prod, PowP, Limbs.Value, Limbs.Magnitude;
    r := FeMul(a, b);
    ModPProduct(a.Value(), b.Value());
    PowPMul(x, e, f, e + f, ModP(a.Value()), ModP(b.Value()));
  }

  /** k squarings multiply the exponent by 2^k. */
  method SqrTimes(a: Limbs, k: nat, ghost x: int, ghost e: nat) returns (t: Limbs)
    requires IsPower(a, x, e)
    ensures IsPower(t, x, Up(e, k))
  {
    hide Up, Pow2, Limbs.Value, Limbs.Magnitude, ModP, PowP;
    t := a;
    var j := 0;
    UpStep(e, 0);
    while j < k
      invariant 0 <= j <= k && IsPower(t, x, Up(e, j))
    {
      ghost var f := Up(e, j);
      t := PowerMul(t, t, x, f, f);
      UpStep(e, j);
      j := j + 1;
    }
  }

  /** k squarings, then one product. */
  method Window(a: Limbs, k: nat, y: Limbs, ghost x: int, ghost e: nat, ghost d: nat, ghost f: nat) returns (t: Limbs)
    requires IsPower(a, x, e) && IsPower(y, x, d) && f == Up(e, k) + d
    ensures IsPower(t, x, f)
  {
    hide IsPower;
    t := SqrTimes(a, k, x, e);
    t := PowerMul(t, y, x, Up(e, k), d);
  }

  /** A block of ones extended by another. */
  method Block(a: Limbs, k: nat, y: Limbs, ghost x: int, ghost n: nat) returns (t: Limbs)
    requires IsPower(a, x, Ones(n)) && IsPower(y, x, Ones(k))
    ensures IsPower(t, x, Ones(n + k))
  {
    hide IsPower;
    OnesJoin(n, k);
    t := Window(a, k, y, x, Ones(n), Ones(k), Ones(n + k));
  }

  /** The blocks both chains are made of: a^(2^n - 1) for n = 2, 22 and 223. */
  method Blocks(a: Limbs) returns (x2: Limbs, x22: Limbs, x223: Limbs)
    requires a.Magnitude(8)
    ensures IsPower(a, a.Value(), 1) && IsPower(x2, a.Value(), 3)
    ensures IsPower(x22, a.Value(), Ones(22)) && IsPower(x223, a.Value(), Ones(223))
  {
    ghost var x := a.Value();
    PowModOne(P, x);
    hide PowP;
    assert Ones(1) == 1 && Ones(2) == 3 by { assert Pow2(1) == 2 && Pow2(2) == 4; }
    hide IsPower, Ones;
    x2 := Block(a, 1, a, x, 1);
    var x3 := Block(x2, 1, a, x, 2);
    var x6 := Block(x3, 3, x3, x, 3);
    var x9 := Block(x6, 3, x3, x, 6);
    var x11 := Block(x9, 2, x2, x, 9);
    x22 := Block(x11, 11, x11, x, 11);
    var x44 := Block(x22, 22, x22, x, 22);
    var x88 := Block(x44, 44, x44, x, 44);
    var x176 := Block(x88, 88, x88, x, 88);
    var x220 := Block(x176, 44, x44, x, 176);
    x223 := Block(x220, 3, x3, x, 220);
  }

  lemma ChainPowers(t: nat)
    requires t == 223
    ensures Pow2(1) == 2 && Pow2(2) == 4 && Pow2(3) == 8 && Pow2(5) == 32 && Pow2(6) == 64 && Pow2(23) == 0x80_0000
    ensures Ones(22) == 0x3F_FFFF
    ensures Ones(t) == 0x7FFFFFFF_FFFFFFFF_FFFFFFFF_FFFFFFFF_FFFFFFFF_FFFFFFFF_FFFFFFFF
  {
    Pow2At(t - 31);
    Pow2Sum(10, 10, 20, 1024, 1024);
    Pow2Sum(20, 11, 31, 0x10_0000, 0x800);
    Pow2Sum(t - 31, 31, t, W3, 0x8000_0000);
  }

  /** r = a^(P - 2). */
  method Inv(a: Limbs) returns (r: Limbs)
    requires a.Magnitude(8)
    ensures IsPower(r, a.Value(), P - 2) && r.Magnitude(1)
  {
    hide IsPower, Ones, Pow2, Limbs.Value, Limbs.Magnitude;
    ghost var x := a.Value();
    ChainPowers(223);
    var x2, x22, t1 := Blocks(a);
    t1 := Window(t1, 23, x22, x, 0x7FFFFFFF_FFFFFFFF_FFFFFFFF_FFFFFFFF_FFFFFFFF_FFFFFFFF_FFFFFFFF, 0x3F_FFFF,
                 0x3FFFFFFF_FFFFFFFF_FFFFFFFF_FFFFFFFF_FFFFFFFF_FFFFFFFF_FFFFFFFF_BFFFFF);
    t1 := Window(t1, 5, a, x, 0x3FFFFFFF_FFFFFFFF_FFFFFFFF_FFFFFFFF_FFFFFFFF_FFFFFFFF_FFFFFFFF_BFFFFF, 1,
                 0x7FFFFFFF_FFFFFFFF_FFFFFFFF_FFFFFFFF_FFFFFFFF_FFFFFFFF_FFFFFFFF_7FFFFE1);
    t1 := Window(t1, 3, x2, x, 0x7FFFFFFF_FFFFFFFF_FFFFFFFF_FFFFFFFF_FFFFFFFF_FFFFFFFF_FFFFFFFF_7FFFFE1, 3,
                 0x3FFFFFFF_FFFFFFFF_FFFFFFFF_FFFFFFFF_FFFFFFFF_FFFFFFFF_FFFFFFFF_BFFFFF0B);
    ghost var e: nat := 0x3FFFFFFF_FFFFFFFF_FFFFFFFF_FFFFFFFF_FFFFFFFF_FFFFFFFF_FFFFFFFF_BFFFFF0B;
    t1 := SqrTimes(t1, 2, x, e);
    r := PowerMul(a, t1, x, 1, Up(e, 2));
  }

  /** Where Fermat's congruence holds, that power is the inverse. */
  lemma InverseByFermat(x: int, e: nat)
    requires e == P - 2 && PowP(x, e + 1) == 1
    ensures ModP(Prod(x, PowP(x, e))) == 1
  {
    hide PowMod;
    PowModInverts(P, x, e);
  }

  /** Equality of residues: negate, add, and test for zero. */
  method FeEqual(a: Limbs, b: Limbs) returns (equal: bool)
    requires a.Magnitude(1) && b.Magnitude(2045)
    ensures equal <==> ModP(a.Value()) == ModP(b.Value())
  {
    hide ModP, Limbs.Value;
    var r0, r1, r2, r3, r4 := NegateLimbs(a.n0, a.n1, a.n2, a.n3, a.n4, 1);
    var na := Limbs(r0, r1, r2, r3, r4);
    var sum := Limbs(na.n0 + b.n0, na.n1 + b.n1, na.n2 + b.n2, na.n3 + b.n3, na.n4 + b.n4);
    SumValue(na, b, sum);
    MagnitudeSuffices(sum);
    hide NoWrap, LostValue;
    LostIsShort(sum);
    var t := new Fe(sum.n0, sum.n1, sum.n2, sum.n3, sum.n4);
    equal := NormalizesToZero(t);
    SumIsZero(na.Value(), a.Value(), b.Value());
  }

  lemma MagnitudeGrows(a: Limbs, m: nat, k: nat)
    requires a.Magnitude(m) && m <= k
    ensures a.Magnitude(k)
  {
  }

  lemma SumValue(a: Limbs, b: Limbs, r: Limbs)
    requires a.Magnitude(2) && b.Magnitude(2045)
    requires r == Limbs(a.n0 + b.n0, a.n1 + b.n1, a.n2 + b.n2, a.n3 + b.n3, a.n4 + b.n4)
    ensures r.Value() == a.Value() + b.Value() && r.Magnitude(2047)
  {
  }

  lemma SumIsZero(n: int, a: int, b: int)
    requires ModP(n + a) == 0
    ensures ModP(n + b) == 0 <==> ModP(a) == ModP(b)
  {
    var k := (n + a) / P;
    DivModOf(n + a, P);
    assert n == k * P - a;
    DivModOf(b, P);
    DivModOf(a, P);
    ModPCongruent(n + b, b - a, k);
    var i := a / P;
    var j := b / P;
    assert b - a == ModP(b) - ModP(a) + (j - i) * P;
    ModPCongruent(b - a, ModP(b) - ModP(a), j - i);
    SmallResidue(ModP(b) - ModP(a));
  }

  lemma SmallResidue(d: int)
    requires 0 - P < d < P
    ensures ModP(d) == 0 <==> d == 0
  {
    DivModUnique(d, P, if d < 0 then -1 else 0, if d < 0 then d + P else d);
  }

  /** r = a^((P + 1) / 4), and whether it is a square root of a. */
  method Sqrt(a: Limbs) returns (r: Limbs, ok: bool)
    requires a.Magnitude(8)
    ensures IsPower(r, a.Value(), (P + 1) / 4)
    ensures ok <==> ModP(Prod(r.Value(), r.Value())) == ModP(a.Value())
  {
    hide IsPower, Ones, Pow2, Limbs.Value, Limbs.Magnitude, ModP;
    ghost var x := a.Value();
    ChainPowers(223);
    var x2, x22, t1 := Blocks(a);
    ghost var e: nat := 0xFFFFFFF_FFFFFFFF_FFFFFFFF_FFFFFFFF_FFFFFFFF_FFFFFFFF_FFFFFFFF_EFFFFFC3;
    t1 := Window(t1, 23, x22, x, 0x7FFFFFFF_FFFFFFFF_FFFFFFFF_FFFFFFFF_FFFFFFFF_FFFFFFFF_FFFFFFFF, 0x3F_FFFF,
                 0x3FFFFFFF_FFFFFFFF_FFFFFFFF_FFFFFFFF_FFFFFFFF_FFFFFFFF_FFFFFFFF_BFFFFF);
    t1 := Window(t1, 6, x2, x, 0x3FFFFFFF_FFFFFFFF_FFFFFFFF_FFFFFFFF_FFFFFFFF_FFFFFFFF_FFFFFFFF_BFFFFF, 3, e);
    t1 := PowerMul(t1, t1, x, e, e);
    r := PowerMul(t1, t1, x, 2 * e, 2 * e);
    t1 := FeMul(r, r);
    MagnitudeGrows(a, 8, 2045);
    ok := FeEqual(t1, a);
  }

  /**
   * The candidate is a root exactly when a has one: from y^2 = a and Fermat's congruence for y,
   * a^((P + 1) / 2) = y^(P + 1) = y^2 = a.
   */
  lemma SqrtOfSquare(a: int, y: int, e: nat)
    requires e == (P + 1) / 4 && ModP(Prod(y, y)) == ModP(a) && PowP(y, P - 1) == 1
    ensures ModP(Prod(PowP(a, e), PowP(a, e))) == ModP(a)
  {
    var s := Prod(y, y);
    hide Power, PowMod;
    PowModCongruent(P, a, s, e);
    PowModOfProduct(P, y, y, e);
    PowModMul(P, y, e, e, PowMod(P, y, e), PowMod(P, y, e));
    var d, h: nat := 2 * e, P - 1;
    assert PowMod(P, a, e) == PowMod(P, y, d);
    PowModMul(P, y, d, d, PowMod(P, y, d), PowMod(P, y, d));
    PowModOne(P, y);
    PowModMul(P, y, 1, 1, y % P, y % P);
    MulMod(P, y, y);
    PowModMul(P, y, h, 2, 1, PowMod(P, y, 2));
  }

  /** The product of a[0..i] inclusive, over the integers. */
  function Running(a: seq<Limbs>, i: nat): int
    requires i < |a|
  {
    if i == 0 then a[0].Value() else Running(a, i - 1) * a[i].Value()
  }

  /** An element with an inverse: for a prime modulus, one that is not zero. */
  ghost predicate Invertible(x: int) { PowP(x, P - 1) == 1 }

  lemma ProductInvertible(x: int, y: int)
    requires Invertible(x) && Invertible(y)
    ensures Invertible(x * y)
  {
    hide Power, PowMod;
    var h: nat := P - 1;
    PowModOfProduct(P, x, y, h);
  }

  lemma {:induction false} RunningInvertible(a: seq<Limbs>, i: nat)
    requires i < |a| && forall k :: 0 <= k < |a| ==> Invertible(a[k].Value())
    ensures Invertible(Running(a, i))
  {
    hide Invertible;
    if i > 0 {
      RunningInvertible(a, i - 1);
      ProductInvertible(Running(a, i - 1), a[i].Value());
    }
  }

  /** u inverts x. */
  predicate Inverts(u: int, x: int) { ModP(Prod(x, u)) == 1 }

  lemma InvertsByFermat(u: int, x: int, e: nat, g: nat)
    requires g == e + 1 && e == P - 2 && ModP(u) == PowP(x, e) && PowP(x, g) == 1
    ensures Inverts(u, x)
  {
    hide PowMod, Power;
    InverseByFermat(x, e);
    ModPProduct(x, u);
    ModPProduct(x, PowP(x, e));
    hide ModP;
    ModPTwice(u);
    ModPTwice(PowP(x, e));
  }

  lemma InvertsRunning(u: int, x: int)
    requires ModP(u) == PowP(x, P - 2) && Invertible(x)
    ensures Inverts(u, x)
  {
    hide PowP, ModP, Inverts;
    var e: nat, g: nat := P - 2, P - 1;
    InvertsByFermat(u, x, e, g);
  }

  lemma ModPTwice(u: int)
    ensures ModP(ModP(u)) == ModP(u)
  {
    DivModUnique(ModP(u), P, 0, ModP(u));
  }

  /**
   * One step back: if u inverts x*y then r = (something congruent to x)*u inverts y, and u*y inverts x.
   */
  lemma StepBack(u: int, x: int, y: int, pre: int, r: int, u': int)
    requires Inverts(u, x * y) && ModP(pre) == ModP(x) && ModP(r) == ModP(Prod(pre, u)) && ModP(u') == ModP(Prod(u, y))
    ensures Inverts(r, y) && Inverts(u', x)
  {
    var t := Prod(x * y, u);
    assert Prod(y, Prod(x, u)) == t && Prod(x, Prod(u, y)) == t by { ThreeProducts(x, y, u); }
    hide ModP, Prod;
    ProdCongruent(pre, x, u, u);
    ProdCongruent(y, y, r, Prod(x, u));
    ProdCongruent(x, x, u', Prod(u, y));
  }

  lemma ThreeProducts(x: int, y: int, u: int)
    ensures y * (x * u) == (x * y) * u && x * (u * y) == (x * y) * u
  {
    MulAssoc(y, x, u);
    MulAssoc(x, y, u);
  }

  lemma ProdCongruent(a: int, b: int, c: int, d: int)
    requires ModP(a) == ModP(b) && ModP(c) == ModP(d)
    ensures ModP(Prod(a, c)) == ModP(Prod(b, d))
  {
    ModPProduct(a, c);
    ModPProduct(b, d);
  }

  /** Inverses of all entries with one inversion and three products each. */
  method InvAllVar(r: array<Limbs>, a: array<Limbs>)
    requires r != a && r.Length == a.Length && forall k :: 0 <= k < a.Length ==> a[k].Magnitude(8)
    requires forall k :: 0 <= k < a.Length ==> Invertible(a[k].Value())
    modifies r
    ensures forall k :: 0 <= k < a.Length ==> r[k].Magnitude(8) && Inverts(r[k].Value(), a[k].Value())
  {
    hide ModP, Prod, Limbs.Value, Limbs.Magnitude, Invertible, Inverts, Running;
    var len := a.Length;
    if len < 1 {
      return;
    }
    ghost var s := a[..];
    r[0] := a[0];
    RunningStep(s, 0);
    var i := 1;
    while i < len
      invariant 1 <= i <= len && a[..] == s
      invariant forall k :: 0 <= k < i ==> r[k].Magnitude(8) && ModP(r[k].Value()) == ModP(Running(s, k))
    {
      RunningStep(s, i);
      ProdCongruent(r[i - 1].Value(), Running(s, i - 1), a[i].Value(), a[i].Value());
      r[i] := FeMul(r[i - 1], a[i]);
      i := i + 1;
    }
    i := i - 1;
    var u := InverseOf(r[i], Running(s, i));
    RunningInvertible(s, i);
    InvertsRunning(u.Value(), Running(s, i));
    while i > 0
      invariant 0 <= i < len && a[..] == s && u.Magnitude(8)
      invariant forall k :: 0 <= k <= i ==> r[k].Magnitude(8) && ModP(r[k].Value()) == ModP(Running(s, k))
      invariant Inverts(u.Value(), Running(s, i))
      invariant forall k :: i < k < len ==> r[k].Magnitude(8) && Inverts(r[k].Value(), a[k].Value())
    {
      var j := i;
      i := i - 1;
      var pre := r[i];
      r[j] := FeMul(pre, u);
      ghost var u0 := u;
      u := FeMul(u, a[j]);
      RunningStep(s, j);
      StepBack(u0.Value(), Running(s, i), a[j].Value(), pre.Value(), r[j].Value(), u.Value());
    }
    RunningStep(s, 0);
    r[0] := u;
  }

  lemma RunningStep(a: seq<Limbs>, i: nat)
    requires i < |a|
    ensures Running(a, i) == if i == 0 then a[0].Value() else Prod(Running(a, i - 1), a[i].Value())
    ensures i > 0 ==> Running(a, i) == Running(a, i - 1) * a[i].Value()
  {
  }

  method InverseOf(t: Limbs, ghost x: int) returns (u: Limbs)
    requires t.Magnitude(8) && ModP(t.Value()) == ModP(x)
    ensures u.Magnitude(8) && ModP(u.Value()) == PowP(x, P - 2)
  {
    hide Power, PowMod;
    u := Inv(t);
    ghost var e: nat := P - 2;
    PowModCongruent(P, t.Value(), x, e);
  }

  /** Whatever inverts x is congruent to anything else that does, such as what inverting x alone gives. */
  lemma SameAsInvertingAlone(x: int, u: int, r: int)
    requires Inverts(u, x) && Inverts(r, x)
    ensures ModP(u) == ModP(r)
  {
    InverseUnique(P, x, u, r);
  }
}

/** Reduction of a field element to its unique limbs, and the zero tests that do without. */
module FieldNormalize {
  import opened Words
  import opened Field

  function Wrap(x: int): int { x % 0x1_0000_0000_0000_0000 }

  /** 1 when adding past 64 bits loses the carry. */
  function Lost64(x: int): int {
    if x < 0x1_0000_0000_0000_0000 then 0 else 1
  }

  lemma WrapLoses(x: int)
    requires 0 <= x < 0x2_0000_0000_0000_0000
    ensures x == Wrap(x) + 0x1_0000_0000_0000_0000 * Lost64(x) && 0 <= Wrap(x) < 0x1_0000_0000_0000_0000
  {
  }

  // The sums of the first carry pass before they are cut to 64 bits: the bits above 2^256 come down onto limb 0,
  // then each limb takes the carry out of the one below.
  function S0(n: Limbs): int { n.n0 + TimesR16(Hi48(n.n4)) }

  function S1(n: Limbs): int { n.n1 + Hi52(Wrap(S0(n))) }

  function S2(n: Limbs): int { n.n2 + Hi52(Wrap(S1(n))) }

  function S3(n: Limbs): int { n.n3 + Hi52(Wrap(S2(n))) }

  function FirstPass(n: Limbs): Limbs {
    Limbs(Lo52(Wrap(S0(n))), Lo52(Wrap(S1(n))), Lo52(Wrap(S2(n))), Lo52(Wrap(S3(n))), Lo48(n.n4) + Hi52(Wrap(S3(n))))
  }

  /** No sum of the first pass leaves 64 bits. */
  predicate NoWrap(n: Limbs) {
    S0(n) < W && S1(n) < W && S2(n) < W && S3(n) < W
  }

  /** What wrapping sums take away from the value. */
  function LostValue(n: Limbs): int {
    0x1_0000_0000_0000_0000
    * Limbs(Lost64(S0(n)), Lost64(S1(n)), Lost64(S2(n)), Lost64(S3(n)), 0).Value()
  }

  /** Limbs that fit their words. */
  predicate Words5(n: Limbs) {
    && 0 <= n.n0 < W && 0 <= n.n1 < W && 0 <= n.n2 < W && 0 <= n.n3 < W && 0 <= n.n4 < W
  }

  lemma LostIsShort(n: Limbs)
    ensures 0 <= LostValue(n) < P && (LostValue(n) == 0 <==> NoWrap(n))
  {
    hide S0, S1, S2, S3;
  }

  lemma TopBits(x: int)
    requires 0 <= x < W
    ensures x == Lo48(x) + 0x1_0000_0000_0000 * Hi48(x) && 0 <= Lo48(x) <= 0xFFFF_FFFF_FFFF && 0 <= Hi48(x) <= 0xFFFF
  {
  }

  lemma WordSplit(x: int)
    requires 0 <= x < W
    ensures x == Lo52(x) + 0x10_0000_0000_0000 * Hi52(x) && 0 <= Lo52(x) <= 0xF_FFFF_FFFF_FFFF && 0 <= Hi52(x) <= 0xFFF
  {
  }

  /** What the first pass leaves: limbs of 52 bits, at most a little over 2^256 in value. */
  predicate Passed(t: Limbs) {
    && 0 <= t.n0 <= 0xF_FFFF_FFFF_FFFF && 0 <= t.n1 <= 0xF_FFFF_FFFF_FFFF && 0 <= t.n2 <= 0xF_FFFF_FFFF_FFFF
    && 0 <= t.n3 <= 0xF_FFFF_FFFF_FFFF && 0 <= t.n4 <= 0x1_0000_0000_0FFE
  }

  /** The first pass takes a multiple of P off the value, and what the wrapping sums lose. */
  lemma FirstPassValue(n: Limbs)
    requires Words5(n)
    ensures n.Value() == FirstPass(n).Value() + Hi48(n.n4) * P + LostValue(n)
    ensures Passed(FirstPass(n))
  {
    TopBits(n.n4);
    WrapLoses(S0(n));
    WordSplit(Wrap(S0(n)));
    WrapLoses(S1(n));
    WordSplit(Wrap(S1(n)));
    WrapLoses(S2(n));
    WordSplit(Wrap(S2(n)));
    WrapLoses(S3(n));
    WordSplit(Wrap(S3(n)));
    hide Hi52, Lo52, Hi48, Lo48, Wrap, Lost64;
  }

  /** The unique limbs of a residue. */
  predicate Canonical(n: Limbs) {
    && Words5(n) && n.n0 < 0x10_0000_0000_0000 && n.n1 < 0x10_0000_0000_0000 && n.n2 < 0x10_0000_0000_0000
    && n.n3 < 0x10_0000_0000_0000 && n.n4 < 0x1_0000_0000_0000 && n.Value() < P
  }

  /** Limbs of 52 bits below the top one are determined by the value. */
  lemma LimbsOf(m: Limbs, n: Limbs)
    requires 0 <= m.n0 < 0x10_0000_0000_0000 && 0 <= m.n1 < 0x10_0000_0000_0000
    requires 0 <= m.n2 < 0x10_0000_0000_0000 && 0 <= m.n3 < 0x10_0000_0000_0000
    requires 0 <= n.n0 < 0x10_0000_0000_0000 && 0 <= n.n1 < 0x10_0000_0000_0000
    requires 0 <= n.n2 < 0x10_0000_0000_0000 && 0 <= n.n3 < 0x10_0000_0000_0000
    ensures m.Value() == n.Value() <==> m == n
  {
    if m.Value() == n.Value() {
      var x3, y3 := m.n3 + 0x10_0000_0000_0000 * m.n4, n.n3 + 0x10_0000_0000_0000 * n.n4;
      var x2, y2 := m.n2 + 0x10_0000_0000_0000 * x3, n.n2 + 0x10_0000_0000_0000 * y3;
      var x1, y1 := m.n1 + 0x10_0000_0000_0000 * x2, n.n1 + 0x10_0000_0000_0000 * y2;
      assert m.n0 + 0x10_0000_0000_0000 * x1 == n.n0 + 0x10_0000_0000_0000 * y1;
      hide Limbs.Value;
      LowLimb(m.n0, x1, n.n0, y1);
      LowLimb(m.n1, x2, n.n1, y2);
      LowLimb(m.n2, x3, n.n2, y3);
      LowLimb(m.n3, m.n4, n.n3, n.n4);
    }
  }

  /** Normalizing in either form therefore gives the same limbs. */
  lemma CanonicalUnique(m: Limbs, n: Limbs)
    requires Canonical(m) && Canonical(n) && m.Value() == n.Value()
    ensures m == n
  {
    LimbsOf(m, n);
  }

  lemma LowLimb(a: int, x: int, b: int, y: int)
    requires 0 <= a < 0x10_0000_0000_0000 && 0 <= b < 0x10_0000_0000_0000
    requires a + 0x10_0000_0000_0000 * x == b + 0x10_0000_0000_0000 * y
    ensures a == b && x == y
  {
  }

  /** The comparison with the prime, limb by limb. */
  predicate AtLeastP(t: Limbs) {
    || t.n4 >= 0x1_0000_0000_0000
    || (t.n4 == 0xFFFF_FFFF_FFFF && t.n1 == 0xF_FFFF_FFFF_FFFF && t.n2 == 0xF_FFFF_FFFF_FFFF
        && t.n3 == 0xF_FFFF_FFFF_FFFF && t.n0 >= 0xF_FFFE_FFFF_FC2F)
  }

  lemma AtLeastPExact(t: Limbs)
    requires Passed(t)
    ensures AtLeastP(t) <==> t.Value() >= P
    ensures t.Value() < 2 * P
  {
  }

  /** Adding 2^256 - P once and dropping bit 256 subtracts the prime. */
  lemma FinalReduction(t: Limbs, x: int, r: Limbs, y4: int, h0: int, h1: int, h2: int, h3: int)
    requires Passed(t) && x == (if AtLeastP(t) then 1 else 0)
    requires t.n0 + TimesR16(x) == r.n0 + 0x10_0000_0000_0000 * h0 && t.n1 + h0 == r.n1 + 0x10_0000_0000_0000 * h1
    requires t.n2 + h1 == r.n2 + 0x10_0000_0000_0000 * h2 && t.n3 + h2 == r.n3 + 0x10_0000_0000_0000 * h3
    requires y4 == t.n4 + h3 && 0 <= r.n0 <= 0xF_FFFF_FFFF_FFFF && 0 <= r.n1 <= 0xF_FFFF_FFFF_FFFF
    requires 0 <= r.n2 <= 0xF_FFFF_FFFF_FFFF && 0 <= r.n3 <= 0xF_FFFF_FFFF_FFFF && r.n4 == Lo48(y4)
    ensures Hi48(y4) == x
    ensures Canonical(r) && r.Value() == t.Value() - x * P
  {
    AtLeastPExact(t);
    assert 0x1_0000_0000_0000 * x <= y4 < 0x1_0000_0000_0000 * (x + 1);
    TopBits(y4);
    hide Lo48, Hi48, AtLeastP;
  }

  lemma ReducedOnce(v: int, x: int, r: int)
    requires r == v - x * P && 0 <= r < P
    ensures r == ModP(v)
  {
    DivModUnique(v, P, x, r);
  }

  lemma PassedNonnegative(t: Limbs)
    requires Passed(t)
    ensures t.Value() >= 0
  {
  }

  /** A sum cut to 64 bits, its low 52 bits and what is above them. */
  method CarryStep(n: u64, c: u64, ghost s: int) returns (lo: u64, hi: u64)
    requires s == n + c
    ensures lo == Lo52(Wrap(s)) && hi == Hi52(Wrap(s))
    ensures lo <= 0xF_FFFF_FFFF_FFFF && hi <= 0xFFF
  {
    var t := (n + c) % W;
    WordSplit(t);
    lo, hi := t % 0x10_0000_0000_0000, t / 0x10_0000_0000_0000;
  }

  method TopPart(n4: u64) returns (t4: u64, x: u64)
    ensures t4 == Lo48(n4) && x == Hi48(n4) && t4 <= 0xFFFF_FFFF_FFFF && x <= 0xFFFF
  {
    TopBits(n4);
    t4, x := n4 % 0x1_0000_0000_0000, n4 / 0x1_0000_0000_0000;
  }

  /** The first pass, which every form below starts with. */
  method Pass(n0: u64, n1: u64, n2: u64, n3: u64, n4: u64) returns (t0: u64, t1: u64, t2: u64, t3: u64, t4: u64)
    ensures Limbs(t0, t1, t2, t3, t4) == FirstPass(Limbs(n0, n1, n2, n3, n4))
    ensures Passed(Limbs(t0, t1, t2, t3, t4))
  {
    hide Wrap, Lo52, Hi52, Lo48, Hi48;
    ghost var n := Limbs(n0, n1, n2, n3, n4);
    var x, c;
    t4, x := TopPart(n4);
    t0, c := CarryStep(n0, TimesR16(x), S0(n));
    t1, c := CarryStep(n1, c, S1(n));
    t2, c := CarryStep(n2, c, S2(n));
    t3, c := CarryStep(n3, c, S3(n));
    t4 := t4 + c;
  }

  /** The final reduction, always carried out, with x = 0 or 1. */
  method Finish(t0: u64, t1: u64, t2: u64, t3: u64, t4: u64, x: u64)
    returns (r0: u64, r1: u64, r2: u64, r3: u64, r4: u64)
    requires Passed(Limbs(t0, t1, t2, t3, t4)) && x == if AtLeastP(Limbs(t0, t1, t2, t3, t4)) then 1 else 0
    ensures Canonical(Limbs(r0, r1, r2, r3, r4))
    ensures Limbs(r0, r1, r2, r3, r4).Value() == ModP(Limbs(t0, t1, t2, t3, t4).Value())
  {
    hide ModP, Lo52, Hi52, Lo48, Hi48, Limbs.Value, AtLeastP, Canonical;
    var h0, h1, h2, h3;
    ghost var t := Limbs(t0, t1, t2, t3, t4);
    r0, h0 := TakeLow(t0 + TimesR16(x));
    r1, h1 := TakeLow(t1 + h0);
    r2, h2 := TakeLow(t2 + h1);
    r3, h3 := TakeLow(t3 + h2);
    var y4: u64 := t4 + h3;
    ghost var top;
    r4, top := TopPart(y4);
    FinalReduction(t, x, Limbs(r0, r1, r2, r3, r4), y4, h0, h1, h2, h3);
    PassedNonnegative(t);
    CanonicalBelow(Limbs(r0, r1, r2, r3, r4));
    ReducedOnce(t.Value(), x, Limbs(r0, r1, r2, r3, r4).Value());
  }

  lemma CanonicalBelow(n: Limbs)
    requires Canonical(n)
    ensures 0 <= n.Value() < P
  {
  }

  /** Full reduction; the limbs are the canonical ones of the value less whatever a wrapping sum lost. */
  method Normalize(r: Fe)
    modifies r
    ensures Canonical(r.View()) && r.View().Value() == ModP(old(r.View().Value() - LostValue(r.View())))
  {
    hide ModP, Lo52, Hi52, Lo48, Hi48, Limbs.Value, FirstPass, LostValue, Canonical;
    ghost var n := r.View();
    NormalizedResidue(n);
    var t0, t1, t2, t3, t4 := Pass(r.n0, r.n1, r.n2, r.n3, r.n4);
    var ones := t1 == 0xFFFFFFFFFFFFF && t2 == 0xFFFFFFFFFFFFF && t3 == 0xFFFFFFFFFFFFF;
    var x := if t4 >= 0x1_0000_0000_0000 || (t4 == 0x0FFFFFFFFFFFF && ones && t0 >= 0xFFFFEFFFFFC2F) then 1 else 0;
    t0, t1, t2, t3, t4 := Finish(t0, t1, t2, t3, t4, x);
    r.n0, r.n1, r.n2, r.n3, r.n4 := t0, t1, t2, t3, t4;
  }

  lemma NormalizedResidue(n: Limbs)
    requires Words5(n)
    ensures ModP(FirstPass(n).Value()) == ModP(n.Value() - LostValue(n))
  {
    hide ModP, FirstPass, LostValue, Limbs.Value, Hi48;
    FirstPassValue(n);
    ModPCongruent(n.Value() - LostValue(n), FirstPass(n).Value(), Hi48(n.n4));
  }

  /** The same, branching on whether the final reduction is needed. */
  method NormalizeVar(r: Fe)
    modifies r
    ensures Canonical(r.View()) && r.View().Value() == ModP(old(r.View().Value() - LostValue(r.View())))
  {
    hide ModP, Lo52, Hi52, Lo48, Hi48, Limbs.Value, FirstPass, LostValue, Canonical;
    ghost var n := r.View();
    NormalizedResidue(n);
    var t0, t1, t2, t3, t4 := Pass(r.n0, r.n1, r.n2, r.n3, r.n4);
    var ones := t1 == 0xFFFFFFFFFFFFF && t2 == 0xFFFFFFFFFFFFF && t3 == 0xFFFFFFFFFFFFF;
    ghost var t := Limbs(t0, t1, t2, t3, t4);
    if t4 >= 0x1_0000_0000_0000 || (t4 == 0x0FFFFFFFFFFFF && ones && t0 >= 0xFFFFEFFFFFC2F) {
      t0, t1, t2, t3, t4 := Finish(t0, t1, t2, t3, t4, 1);
    } else {
      AlreadyCanonical(t);
    }
    r.n0, r.n1, r.n2, r.n3, r.n4 := t0, t1, t2, t3, t4;
  }

  lemma AlreadyCanonical(t: Limbs)
    requires Passed(t) && !AtLeastP(t)
    ensures Canonical(t) && t.Value() == ModP(t.Value())
  {
    AtLeastPExact(t);
    ReducedOnce(t.Value(), 0, t.Value());
  }

  /** One pass only: magnitude 1, not necessarily below the prime. */
  method NormalizeWeak(r: Fe)
    modifies r
    ensures r.View().Magnitude(1) && ModP(r.View().Value()) == ModP(old(r.View().Value() - LostValue(r.View())))
  {
    hide ModP, Lo52, Hi52, Lo48, Hi48, Limbs.Value, FirstPass, LostValue;
    NormalizedResidue(r.View());
    var t0, t1, t2, t3, t4 := Pass(r.n0, r.n1, r.n2, r.n3, r.n4);
    r.n0, r.n1, r.n2, r.n3, r.n4 := t0, t1, t2, t3, t4;
  }

  /** The two raw values a residue of 0 can have after one pass. */
  lemma ZeroOrP(t: Limbs)
    requires Passed(t)
    ensures ModP(t.Value()) == 0 <==>
            || (t.n0 == 0 && t.n1 == 0 && t.n2 == 0 && t.n3 == 0 && t.n4 == 0)
            || (t.n0 == 0xF_FFFE_FFFF_FC2F && t.n1 == 0xF_FFFF_FFFF_FFFF && t.n2 == 0xF_FFFF_FFFF_FFFF
                && t.n3 == 0xF_FFFF_FFFF_FFFF && t.n4 == 0xFFFF_FFFF_FFFF)
  {
    hide ModP, AtLeastP, Limbs.Value;
    AtLeastPExact(t);
    PassedNonnegative(t);
    ResidueZero(t.Value());
    var zero := Limbs(0, 0, 0, 0, 0);
    var m := 0xF_FFFF_FFFF_FFFF;
    var prime := Limbs(0xF_FFFE_FFFF_FC2F, m, m, m, 0xFFFF_FFFF_FFFF);
    ZeroAndPrime(zero, prime);
    LimbsOf(t, zero);
    LimbsOf(t, prime);
  }

  lemma ZeroAndPrime(zero: Limbs, prime: Limbs)
    requires zero == Limbs(0, 0, 0, 0, 0)
    requires var m := 0xF_FFFF_FFFF_FFFF; prime == Limbs(0xF_FFFE_FFFF_FC2F, m, m, m, 0xFFFF_FFFF_FFFF)
    ensures zero.Value() == 0 && prime.Value() == P
  {
  }

  lemma ResidueZero(v: int)
    requires 0 <= v < 2 * P
    ensures ModP(v) == 0 <==> v == 0 || v == P
  {
    ReducedOnce(v, if v >= P then 1 else 0, if v >= P then v - P else v);
  }

  /** Whether the residue is 0, from one pass. */
  method NormalizesToZero(r: Fe) returns (zero: bool)
    ensures zero <==> ModP(r.View().Value() - LostValue(r.View())) == 0
  {
    hide ModP, Lo52, Hi52, Lo48, Hi48, Limbs.Value, FirstPass, LostValue;
    NormalizedResidue(r.View());
    var t0, t1, t2, t3, t4 := Pass(r.n0, r.n1, r.n2, r.n3, r.n4);
    ZeroOrP(Limbs(t0, t1, t2, t3, t4));
    var z0 := t0 == 0 && t1 == 0 && t2 == 0 && t3 == 0 && t4 == 0;
    var z1 := t0 == 0xFFFFEFFFFFC2F && t1 == 0xFFFFFFFFFFFFF && t2 == 0xFFFFFFFFFFFFF && t3 == 0xFFFFFFFFFFFFF
              && t4 == 0x0FFFFFFFFFFFF;
    zero := z0 || z1;
  }

  /** The same, returning early when the lowest limb already rules both out. */
  method NormalizesToZeroVar(r: Fe) returns (zero: bool)
    ensures zero <==> ModP(r.View().Value() - LostValue(r.View())) == 0
  {
    hide ModP, Lo52, Hi52, Lo48, Hi48, Limbs.Value, LostValue, Wrap, TimesR16;
    ghost var n := r.View();
    NormalizedResidue(n);
    PassOf(n);
    ZeroOrP(FirstPass(n));
    var x, c, t0, t1, t2, t3, t4;
    t4, x := TopPart(r.n4);
    SmallTimesR16(x);
    t0, c := CarryStep(r.n0, TimesR16(x), S0(n));
    var z0, z1 := t0 == 0, t0 == 0xFFFFEFFFFFC2F;
    if !z0 && !z1 {
      return false;
    }
    t1, c := CarryStep(r.n1, c, S1(n));
    t2, c := CarryStep(r.n2, c, S2(n));
    t3, c := CarryStep(r.n3, c, S3(n));
    t4 := t4 + c;
    z0 := z0 && t1 == 0 && t2 == 0 && t3 == 0 && t4 == 0;
    z1 := z1 && t1 == 0xFFFFFFFFFFFFF && t2 == 0xFFFFFFFFFFFFF && t3 == 0xFFFFFFFFFFFFF && t4 == 0x0FFFFFFFFFFFF;
    zero := z0 || z1;
  }

  lemma SmallTimesR16(x: int)
    requires 0 <= x <= 0xFFFF
    ensures 0 <= TimesR16(x) < W
  {
  }

  lemma PassOf(n: Limbs)
    requires Words5(n)
    ensures Passed(FirstPass(n))
  {
    FirstPassValue(n);
  }

  /** Full reduction gives the residue exactly when no sum of the first pass leaves 64 bits. */
  lemma NormalizeExact(n: Limbs)
    requires Words5(n)
    ensures ModP(n.Value() - LostValue(n)) == ModP(n.Value()) <==> NoWrap(n)
  {
    LostIsShort(n);
    var v, l := n.Value(), LostValue(n);
    hide ModP, LostValue, Limbs.Value, NoWrap;
    SmallDifference(v, l);
  }

  lemma SmallDifference(v: int, l: int)
    requires 0 <= l < P
    ensures ModP(v - l) == ModP(v) <==> l == 0
  {
    DivModOf(v, P);
    DivModOf(v - l, P);
  }

  /** Up to magnitude 2047 that is always so. */
  lemma MagnitudeSuffices(n: Limbs)
    requires n.Magnitude(2047)
    ensures Words5(n) && NoWrap(n)
  {
    TopBits(n.n4);
    SumFits(n.n0, TimesR16(Hi48(n.n4)));
    SumFits(n.n1, Hi52(Wrap(S0(n))));
    SumFits(n.n2, Hi52(Wrap(S1(n))));
    SumFits(n.n3, Hi52(Wrap(S2(n))));
    hide Lo48, Hi48, Hi52, Wrap;
  }

  lemma SumFits(n: int, c: int)
    requires 0 <= n <= 0x1F_FFFF_FFFF_FFFE * 2047 && 0 <= c < 0x10_0000_0000_0000
    ensures 0 <= n + c < W
    ensures 0 <= Hi52(Wrap(n + c)) <= 0xFFF
  {
    WordSplit(n + c);
  }

  /** Magnitude 2048, which the element checks still allow, is too much: this element wraps and is reduced wrongly. */
  lemma MagnitudeTooLarge(n: Limbs)
    requires n == Limbs(0xFFFF_FFFF_FFFF_F000, 0, 0, 0, 0xFFF_FFFF_FFFF_F000)
    ensures n.Magnitude(2048) && Words5(n)
    ensures ModP(n.Value() - LostValue(n)) != ModP(n.Value())
  {
    assert S0(n) >= W;
    NormalizeExact(n);
  }
}

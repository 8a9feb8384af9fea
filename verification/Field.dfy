/** Field elements: five limbs of base 2^52, loosely bounded between operations. */
module Field {
  import opened Words
  import opened Accumulator

  const P: int := 0xFFFFFFFF_FFFFFFFF_FFFFFFFF_FFFFFFFF_FFFFFFFF_FFFFFFFF_FFFFFFFE_FFFFFC2F

  /** 2^260 and 2^256 modulo the prime, as the multiplications they take part in. */
  function TimesR(x: int): int { 0x1000003D10 * x }

  function TimesR16(x: int): int { 0x1000003D1 * x }

  function ModP(x: int): (r: int)
    ensures 0 <= r < P
  {
    DivModOf(x, P);
    x % P
  }

  lemma ModPCongruent(x: int, y: int, k: int)
    requires x == y + k * P
    ensures ModP(x) == ModP(y)
  {
    AddMultiple(y, k, P);
  }

  function Lo52(x: int): int { x % 0x10_0000_0000_0000 }

  function Hi52(x: int): int { x / 0x10_0000_0000_0000 }

  function Lo48(x: int): int { x % 0x1_0000_0000_0000 }

  function Hi48(x: int): int { x / 0x1_0000_0000_0000 }

  lemma LoHi(x: int)
    ensures x == Lo52(x) + 0x10_0000_0000_0000 * Hi52(x) && 0 <= Lo52(x) < 0x10_0000_0000_0000
  {
  }

  datatype Limbs = Limbs(n0: int, n1: int, n2: int, n3: int, n4: int) {
    function Value(): int {
      n0 + 0x10_0000_0000_0000 * n1 + 0x100_0000_0000_0000_0000_0000_0000 * n2
      + 0x1000_0000_0000_0000_0000_0000_0000_0000_0000_0000 * n3
      + 0x1_0000_0000_0000_0000_0000_0000_0000_0000_0000_0000_0000_0000_0000 * n4
    }

    /** Magnitude m as the source counts it: up to 2m times a full limb. */
    predicate Magnitude(m: int) {
      && 0 <= n0 <= 0x1F_FFFF_FFFF_FFFE * m && 0 <= n1 <= 0x1F_FFFF_FFFF_FFFE * m && 0 <= n2 <= 0x1F_FFFF_FFFF_FFFE * m
      && 0 <= n3 <= 0x1F_FFFF_FFFF_FFFE * m && 0 <= n4 <= 0x1_FFFF_FFFF_FFFE * m
    }

    /** What a multiplication accepts: 56 bits, and 52 in the top limb. */
    predicate Multipliable() {
      && 0 <= n0 < 0x100_0000_0000_0000 && 0 <= n1 < 0x100_0000_0000_0000 && 0 <= n2 < 0x100_0000_0000_0000
      && 0 <= n3 < 0x100_0000_0000_0000 && 0 <= n4 < 0x10_0000_0000_0000
    }

    /** What a multiplication returns: 52 bits, and at most 49 in the top limb. */
    predicate Product() {
      && 0 <= n0 < 0x10_0000_0000_0000 && 0 <= n1 < 0x10_0000_0000_0000 && 0 <= n2 < 0x10_0000_0000_0000
      && 0 <= n3 < 0x10_0000_0000_0000 && 0 <= n4 <= 0x1_FFFF_FFFF_FFFE
    }
  }

  /** The nine columns of a product. */
  datatype Columns = Columns(p0: int, p1: int, p2: int, p3: int, p4: int, p5: int, p6: int, p7: int, p8: int) {
    function Value(): int {
      Limbs(p0, p1, p2, p3, p4).Value()
      + 0x10_0000_0000_0000_0000_0000_0000_0000_0000_0000_0000_0000_0000_0000_0000_0000_0000
        * Limbs(p5, p6, p7, p8, 0).Value()
    }

    predicate Bounded() {
      && 0 <= p0 < 0x1_0000_0000_0000_0000_0000_0000_0000 && 0 <= p1 < 0x2_0000_0000_0000_0000_0000_0000_0000
      && 0 <= p2 < 0x3_0000_0000_0000_0000_0000_0000_0000 && 0 <= p3 < 0x4_0000_0000_0000_0000_0000_0000_0000
      && 0 <= p4 < 0x4_0000_0000_0000_0000_0000_0000_0000 && 0 <= p5 < 0x3_0000_0000_0000_0000_0000_0000_0000
      && 0 <= p6 < 0x2_0000_0000_0000_0000_0000_0000_0000 && 0 <= p7 < 0x1_0000_0000_0000_0000_0000_0000_0000
      && 0 <= p8 < 0x100_0000_0000_0000_0000_0000_0000
    }
  }

  function Cols(a: Limbs, b: Limbs): Columns {
    Columns(Prod(a.n0, b.n0),
            Prod(a.n0, b.n1) + Prod(a.n1, b.n0),
            Prod(a.n0, b.n2) + Prod(a.n1, b.n1) + Prod(a.n2, b.n0),
            Prod(a.n0, b.n3) + Prod(a.n1, b.n2) + Prod(a.n2, b.n1) + Prod(a.n3, b.n0),
            Prod(a.n0, b.n4) + Prod(a.n1, b.n3) + Prod(a.n2, b.n2) + Prod(a.n3, b.n1) + Prod(a.n4, b.n0),
            Prod(a.n1, b.n4) + Prod(a.n2, b.n3) + Prod(a.n3, b.n2) + Prod(a.n4, b.n1),
            Prod(a.n2, b.n4) + Prod(a.n3, b.n3) + Prod(a.n4, b.n2),
            Prod(a.n3, b.n4) + Prod(a.n4, b.n3),
            Prod(a.n4, b.n4))
  }

  lemma ProdDistributes(a: int, b: Limbs)
    ensures Prod(a, b.Value())
         == Limbs(Prod(a, b.n0), Prod(a, b.n1), Prod(a, b.n2), Prod(a, b.n3), Prod(a, b.n4)).Value()
  {
  }

  lemma ProdSym(a: int, b: int)
    ensures Prod(a, b) == Prod(b, a)
  {
  }

  /** The product is the sum of its columns. */
  lemma ProductByColumns(a: Limbs, b: Limbs)
    ensures Cols(a, b).Value() == Prod(a.Value(), b.Value())
  {
    hide Prod;
    var bv := b.Value();
    ProdSym(a.Value(), bv);
    ProdDistributes(bv, a);
    ProdSym(bv, a.n0);
    ProdSym(bv, a.n1);
    ProdSym(bv, a.n2);
    ProdSym(bv, a.n3);
    ProdSym(bv, a.n4);
    ProdDistributes(a.n0, b);
    ProdDistributes(a.n1, b);
    ProdDistributes(a.n2, b);
    ProdDistributes(a.n3, b);
    ProdDistributes(a.n4, b);
  }

  lemma ProdBound(a: int, b: int, m: int, n: int)
    requires 0 <= a < m && 0 <= b < n
    ensures 0 <= Prod(a, b) <= Prod(m - 1, n - 1)
  {
    MulLe(a, m - 1, b);
    MulLe(b, n - 1, m - 1);
    MulLe(0, a, b);
  }

  /** A product of limbs a multiplication accepts: 112, 108 or 104 bits. */
  lemma ProdBits(a: int, b: int)
    requires 0 <= a < 0x100_0000_0000_0000 && 0 <= b < 0x100_0000_0000_0000
    ensures 0 <= Prod(a, b) < 0x1_0000_0000_0000_0000_0000_0000_0000
    ensures a < 0x10_0000_0000_0000 || b < 0x10_0000_0000_0000 ==> Prod(a, b) < 0x1000_0000_0000_0000_0000_0000_0000
    ensures a < 0x10_0000_0000_0000 && b < 0x10_0000_0000_0000 ==> Prod(a, b) < 0x100_0000_0000_0000_0000_0000_0000
  {
    ProdBound(a, b, 0x100_0000_0000_0000, 0x100_0000_0000_0000);
    if a < 0x10_0000_0000_0000 { ProdBound(a, b, 0x10_0000_0000_0000, 0x100_0000_0000_0000); }
    if b < 0x10_0000_0000_0000 { ProdBound(a, b, 0x100_0000_0000_0000, 0x10_0000_0000_0000); }
    if a < 0x10_0000_0000_0000 && b < 0x10_0000_0000_0000 { ProdBound(a, b, 0x10_0000_0000_0000, 0x10_0000_0000_0000); }
  }

  // The running sums over columns 3, 4 and 5; column 8 comes down onto 3 and 4 multiplied by R.
  function Sum3(p: Columns): int { p.p3 + TimesR(Lo52(p.p8)) }

  function Sum4(p: Columns): int { Hi52(Sum3(p)) + p.p4 + TimesR(Hi52(p.p8)) }

  function Sum5(p: Columns): int { Hi52(Sum4(p)) + p.p5 }

  /** Everything of weight 2^256 found so far: the low limb of column 5 and the four top bits of column 4. */
  function Above256(p: Columns): int { Lo52(Sum5(p)) * 16 + Hi48(Lo52(Sum4(p))) }

  /** The fold: columns above the fourth come down multiplied by R, carries moving up 52 bits at a time. */
  function Folded(p: Columns): Limbs {
    var c0 := p.p0 + TimesR16(Above256(p));
    var d6 := Hi52(Sum5(p)) + p.p6;
    var c1 := Hi52(c0) + p.p1 + TimesR(Lo52(d6));
    var d7 := Hi52(d6) + p.p7;
    var c2 := Hi52(c1) + p.p2 + TimesR(Lo52(d7));
    var c3 := Hi52(c2) + TimesR(Hi52(d7)) + Lo52(Sum3(p));
    Limbs(Lo52(c0), Lo52(c1), Lo52(c2), Lo52(c3), Hi52(c3) + Lo48(Lo52(Sum4(p))))
  }

  /** The words a fold splits off: a low part of 52 bits, or of 48 and 4, and what is carried. */
  datatype FoldWords = FoldWords(lo8: int, hi8: int, t3: int, hi3: int, t4: int, tx: int, hi4: int, lo5: int, hi5: int,
                                 h0: int, lo6: int, hi6: int, h1: int, lo7: int, hi7: int, h2: int, h3: int) {
    /** The low parts are in range. */
    predicate Low() {
      && 0 <= lo8 <= 0xF_FFFF_FFFF_FFFF && 0 <= t3 <= 0xF_FFFF_FFFF_FFFF && 0 <= t4 <= 0xFFFF_FFFF_FFFF
      && 0 <= tx <= 15 && 0 <= lo5 <= 0xF_FFFF_FFFF_FFFF && 0 <= lo6 <= 0xF_FFFF_FFFF_FFFF
      && 0 <= lo7 <= 0xF_FFFF_FFFF_FFFF
    }

    /** The steps of the fold as equations between its intermediate values. */
    predicate Steps(p: Columns, r: Limbs) {
      && p.p8 == lo8 + 0x10_0000_0000_0000 * hi8
      && p.p3 + TimesR(lo8) == t3 + 0x10_0000_0000_0000 * hi3
      && hi3 + p.p4 + TimesR(hi8) == t4 + 0x1_0000_0000_0000 * tx + 0x10_0000_0000_0000 * hi4
      && hi4 + p.p5 == lo5 + 0x10_0000_0000_0000 * hi5
      && p.p0 + TimesR16(lo5 * 16 + tx) == r.n0 + 0x10_0000_0000_0000 * h0
      && hi5 + p.p6 == lo6 + 0x10_0000_0000_0000 * hi6
      && h0 + p.p1 + TimesR(lo6) == r.n1 + 0x10_0000_0000_0000 * h1
      && hi6 + p.p7 == lo7 + 0x10_0000_0000_0000 * hi7
      && h1 + p.p2 + TimesR(lo7) == r.n2 + 0x10_0000_0000_0000 * h2
      && h2 + TimesR(hi7) + t3 == r.n3 + 0x10_0000_0000_0000 * h3
      && r.n4 == h3 + t4
    }
  }

  /** What the fold subtracts: 16 P for each unit of weight 2^260, and P for each of weight 2^256. */
  lemma FoldIdentity(p: Columns, r: Limbs, w: FoldWords) returns (k: int)
    requires w.Steps(p, r)
    ensures p.Value() == r.Value() + k * P
  {
    k := 16 * 0x1000_0000_0000_0000_0000_0000_0000_0000_0000_0000 * (p.p8 + w.hi7)
         + 16 * 0x10_0000_0000_0000 * w.lo6 + 16 * 0x100_0000_0000_0000_0000_0000_0000 * w.lo7 + 16 * w.lo5 + w.tx;
  }

  /** Carries stay small enough that the top limb has 49 bits. */
  lemma FoldBounds(p: Columns, r: Limbs, w: FoldWords)
    requires w.Steps(p, r) && w.Low() && p.Bounded()
    requires 0 <= r.n0 <= 0xF_FFFF_FFFF_FFFF && 0 <= r.n1 <= 0xF_FFFF_FFFF_FFFF
    requires 0 <= r.n2 <= 0xF_FFFF_FFFF_FFFF && 0 <= r.n3 <= 0xF_FFFF_FFFF_FFFF
    ensures r.Product()
  {
    assert 0 <= w.hi4 < 0x1_0000_0000_0000_0000;
    assert 0 <= w.hi5 < 0x8000_0000_0000_0000;
    assert 0 <= w.hi6 < 0x4000_0000_0000_0000;
    assert 0 <= w.hi7 < 0x4000_0000_0000_0000;
    assert 0 <= w.h2 < 0x8000_0000_0000_0000;
    assert 0 <= w.h3 < 0x1_0000_0000_0000;
  }

  lemma SplitNibble(x: int)
    requires 0 <= x < 0x10_0000_0000_0000
    ensures x == Lo48(x) + 0x1_0000_0000_0000 * Hi48(x)
    ensures 0 <= Lo48(x) <= 0xFFFF_FFFF_FFFF && 0 <= Hi48(x) <= 15
  {
  }

  /** Folding keeps the residue modulo the field prime, and leaves limbs of 52 and 49 bits. */
  lemma FoldedIsProduct(p: Columns)
    requires p.Bounded()
    ensures ModP(Folded(p).Value()) == ModP(p.Value())
    ensures Folded(p).Product()
  {
    hide Lo52, Hi52, Lo48, Hi48, TimesR, TimesR16, ModP, Columns.Value, Limbs.Value;
    var d3, d4, d5 := Sum3(p), Sum4(p), Sum5(p);
    LoHi(d4);
    SplitNibble(Lo52(d4));
    var tx, t4 := Hi48(Lo52(d4)), Lo48(Lo52(d4));
    var c0 := p.p0 + TimesR16(Above256(p));
    var d6 := Hi52(d5) + p.p6;
    var c1 := Hi52(c0) + p.p1 + TimesR(Lo52(d6));
    var d7 := Hi52(d6) + p.p7;
    var c2 := Hi52(c1) + p.p2 + TimesR(Lo52(d7));
    var c3 := Hi52(c2) + TimesR(Hi52(d7)) + Lo52(d3);
    LoHi(p.p8);
    LoHi(d3);
    LoHi(d5);
    LoHi(c0);
    LoHi(d6);
    LoHi(c1);
    LoHi(d7);
    LoHi(c2);
    LoHi(c3);
    var r := Folded(p);
    assert r == Limbs(Lo52(c0), Lo52(c1), Lo52(c2), Lo52(c3), Hi52(c3) + t4);
    hide Folded;
    var w := FoldWords(Lo52(p.p8), Hi52(p.p8), Lo52(d3), Hi52(d3), t4, tx, Hi52(d4), Lo52(d5), Hi52(d5),
                       Hi52(c0), Lo52(d6), Hi52(d6), Hi52(c1), Lo52(d7), Hi52(d7), Hi52(c2), Hi52(c3));
    FoldBounds(p, r, w);
    var k := FoldIdentity(p, r, w);
    ModPCongruent(p.Value(), r.Value(), k);
  }

  /** The fold of the columns is a product modulo the prime. */
  lemma MultiplicationCorrect(a: Limbs, b: Limbs)
    requires a.Multipliable() && b.Multipliable()
    ensures ModP(Folded(Cols(a, b)).Value()) == ModP(Prod(a.Value(), b.Value()))
    ensures Folded(Cols(a, b)).Product()
  {
    hide Folded, Cols, Prod, ModP, Limbs.Value, Columns.Value;
    ColsBounded(a, b);
    FoldedIsProduct(Cols(a, b));
    ProductByColumns(a, b);
  }

  /** t & M and t >> 52. */
  method TakeLow(t: u128) returns (lo: u64, hi: u128)
    ensures lo == Lo52(t) && hi == Hi52(t)
    ensures t == lo + 0x10_0000_0000_0000 * hi && lo <= 0xF_FFFF_FFFF_FFFF
  {
    lo, hi := t % 0x10_0000_0000_0000, t / 0x10_0000_0000_0000;
  }

  /** The low 48 bits of a limb and the four above them. */
  method TakeTop(t: u64) returns (lo: u64, hi: u64)
    requires t <= 0xF_FFFF_FFFF_FFFF
    ensures lo == Lo48(t) && hi == Hi48(t) && lo <= 0xFFFF_FFFF_FFFF && hi <= 15
  {
    SplitNibble(t);
    lo, hi := t % 0x1_0000_0000_0000, t / 0x1_0000_0000_0000;
  }

  /** Columns of limbs a multiplication accepts. */
  lemma ColsBounded(a: Limbs, b: Limbs)
    requires a.Multipliable() && b.Multipliable()
    ensures Cols(a, b).Bounded()
  {
    hide Prod;
    ProdBits(a.n0, b.n0);
    ProdBits(a.n0, b.n1);
    ProdBits(a.n0, b.n2);
    ProdBits(a.n0, b.n3);
    ProdBits(a.n0, b.n4);
    ProdBits(a.n1, b.n0);
    ProdBits(a.n1, b.n1);
    ProdBits(a.n1, b.n2);
    ProdBits(a.n1, b.n3);
    ProdBits(a.n1, b.n4);
    ProdBits(a.n2, b.n0);
    ProdBits(a.n2, b.n1);
    ProdBits(a.n2, b.n2);
    ProdBits(a.n2, b.n3);
    ProdBits(a.n2, b.n4);
    ProdBits(a.n3, b.n0);
    ProdBits(a.n3, b.n1);
    ProdBits(a.n3, b.n2);
    ProdBits(a.n3, b.n3);
    ProdBits(a.n3, b.n4);
    ProdBits(a.n4, b.n0);
    ProdBits(a.n4, b.n1);
    ProdBits(a.n4, b.n2);
    ProdBits(a.n4, b.n3);
    ProdBits(a.n4, b.n4);
  }

  /** The fold in 128-bit accumulators c and d, none of whose sums overflows: columns 8, 3, 4 and 5. */
  method FoldHigh(p: Columns) returns (t3: u64, t4: u64, u0: u64, d: u128)
    requires p.Bounded()
    ensures t3 == Lo52(Sum3(p)) && t4 == Lo48(Lo52(Sum4(p))) && u0 == Above256(p) && d == Hi52(Sum5(p))
    ensures t3 <= 0xF_FFFF_FFFF_FFFF && t4 <= 0xFFFF_FFFF_FFFF && u0 <= 0xFF_FFFF_FFFF_FFFF && d < 0x8000_0000_0000_0000
  {
    hide Lo52, Hi52, Lo48, Hi48;
    var tx: u64, x: u64;
    d := p.p3;
    var c: u128 := p.p8;
    x, c := TakeLow(c);
    d := d + TimesR(x);
    t3, d := TakeLow(d);
    d := d + p.p4;
    d := d + TimesR(c);
    t4, d := TakeLow(d);
    t4, tx := TakeTop(t4);
    d := d + p.p5;
    u0, d := TakeLow(d);
    u0 := u0 * 16 + tx;
  }

  /** The rest: columns 0, 6, 1, 7 and 2. */
  method FoldColumns(p: Columns) returns (r0: u64, r1: u64, r2: u64, r3: u64, r4: u64)
    requires p.Bounded()
    ensures Limbs(r0, r1, r2, r3, r4) == Folded(p)
  {
    hide Lo52, Hi52, Lo48, Hi48, Sum3, Sum4, Sum5, Above256;
    var t3, t4, u0, d := FoldHigh(p);
    var x: u64;
    var c: u128 := p.p0;
    c := c + TimesR16(u0);
    r0, c := TakeLow(c);
    c := c + p.p1;
    d := d + p.p6;
    x, d := TakeLow(d);
    c := c + TimesR(x);
    r1, c := TakeLow(c);
    c := c + p.p2;
    d := d + p.p7;
    x, d := TakeLow(d);
    c := c + TimesR(x);
    r2, c := TakeLow(c);
    c := c + (TimesR(d) + t3);
    r3, c := TakeLow(c);
    c := c + t4;
    r4 := c;
  }

  class Fe {
    var n0: u64
    var n1: u64
    var n2: u64
    var n3: u64
    var n4: u64

    constructor (a0: u64, a1: u64, a2: u64, a3: u64, a4: u64)
      ensures View() == Limbs(a0, a1, a2, a3, a4)
    {
      n0, n1, n2, n3, n4 := a0, a1, a2, a3, a4;
    }

    ghost function View(): Limbs
      reads this
    {
      Limbs(n0, n1, n2, n3, n4)
    }

    /** this = a * b; the result may share storage with a but not with b. */
    method MulInner(a: Fe, b: Fe)
      requires a.View().Multipliable() && b.View().Multipliable() && this != b
      modifies this
      ensures View() == Folded(Cols(old(a.View()), old(b.View())))
      ensures ModP(View().Value()) == ModP(Prod(old(a.View().Value()), old(b.View().Value()))) && View().Product()
    {
      MultiplicationCorrect(a.View(), b.View());
      var a0, a1, a2, a3, a4 := a.n0, a.n1, a.n2, a.n3, a.n4;
      ColsBounded(a.View(), b.View());
      hide Prod, Folded, ModP, Limbs.Value;
      var p := Columns(Prod(a0, b.n0),
                       Prod(a0, b.n1) + Prod(a1, b.n0),
                       Prod(a0, b.n2) + Prod(a1, b.n1) + Prod(a2, b.n0),
                       Prod(a0, b.n3) + Prod(a1, b.n2) + Prod(a2, b.n1) + Prod(a3, b.n0),
                       Prod(a0, b.n4) + Prod(a1, b.n3) + Prod(a2, b.n2) + Prod(a3, b.n1) + Prod(a4, b.n0),
                       Prod(a1, b.n4) + Prod(a2, b.n3) + Prod(a3, b.n2) + Prod(a4, b.n1),
                       Prod(a2, b.n4) + Prod(a3, b.n3) + Prod(a4, b.n2),
                       Prod(a3, b.n4) + Prod(a4, b.n3),
                       Prod(a4, b.n4));
      n0, n1, n2, n3, n4 := FoldColumns(p);
    }

    /** this = a * a: each cross product enters once, one factor doubled first. */
    method SqrInner(a: Fe)
      requires a.View().Multipliable()
      modifies this
      ensures View() == Folded(Cols(old(a.View()), old(a.View())))
      ensures ModP(View().Value()) == ModP(Prod(old(a.View().Value()), old(a.View().Value()))) && View().Product()
    {
      MultiplicationCorrect(a.View(), a.View());
      hide Folded, Cols, Prod, ModP, Limbs.Value;
      ghost var v := a.View();
      ColsBounded(v, v);
      var p := ColumnsOfSquare(a.n0, a.n1, a.n2, a.n3, a.n4);
      n0, n1, n2, n3, n4 := FoldColumns(p);
    }

    /** The product, for operands of magnitude at most 8; it has magnitude 1. */
    method Mul(a: Fe, b: Fe)
      requires a.View().Magnitude(8) && b.View().Magnitude(8) && this != b
      modifies this
      ensures ModP(View().Value()) == ModP(Prod(old(a.View().Value()), old(b.View().Value()))) && View().Magnitude(1)
    {
      hide ModP, Prod, Limbs.Value, Folded, Cols;
      MulInner(a, b);
    }

    method Sqr(a: Fe)
      requires a.View().Magnitude(8)
      modifies this
      ensures ModP(View().Value()) == ModP(Prod(old(a.View().Value()), old(a.View().Value()))) && View().Magnitude(1)
    {
      hide ModP, Prod, Limbs.Value, Folded, Cols;
      SqrInner(a);
    }

    /** The negation of an element of magnitude at most m, as 2(m + 1) times the prime minus it, limb by limb. */
    method Negate(a: Fe, m: int)
      requires 0 <= m < 2048 && a.View().Magnitude(m)
      modifies this
      ensures ModP(View().Value() + old(a.View().Value())) == 0 && View().Magnitude(m + 1)
    {
      hide ModP, Limbs.Value, Limbs.Magnitude;
      n0, n1, n2, n3, n4 := NegateLimbs(a.n0, a.n1, a.n2, a.n3, a.n4, m);
    }
  }

  method NegateLimbs(a0: u64, a1: u64, a2: u64, a3: u64, a4: u64, m: int)
    returns (r0: u64, r1: u64, r2: u64, r3: u64, r4: u64)
    requires 0 <= m < 2048 && Limbs(a0, a1, a2, a3, a4).Magnitude(m)
    ensures ModP(Limbs(r0, r1, r2, r3, r4).Value() + Limbs(a0, a1, a2, a3, a4).Value()) == 0
    ensures Limbs(r0, r1, r2, r3, r4).Magnitude(m + 1)
  {
    NegatedLimbs(Limbs(a0, a1, a2, a3, a4), m);
    hide ModP, Limbs.Value;
    r0, r1 := 0xFFFFEFFFFFC2F * 2 * (m + 1) - a0, 0xFFFFFFFFFFFFF * 2 * (m + 1) - a1;
    r2 := 0xFFFFFFFFFFFFF * 2 * (m + 1) - a2;
    r3, r4 := 0xFFFFFFFFFFFFF * 2 * (m + 1) - a3, 0x0FFFFFFFFFFFF * 2 * (m + 1) - a4;
  }

  lemma NegatedLimbs(a: Limbs, m: int)
    requires 0 <= m < 2048 && a.Magnitude(m)
    ensures var r := Limbs(0xFFFFEFFFFFC2F * 2 * (m + 1) - a.n0, 0xFFFFFFFFFFFFF * 2 * (m + 1) - a.n1,
                           0xFFFFFFFFFFFFF * 2 * (m + 1) - a.n2, 0xFFFFFFFFFFFFF * 2 * (m + 1) - a.n3,
                           0x0FFFFFFFFFFFF * 2 * (m + 1) - a.n4);
            ModP(r.Value() + a.Value()) == 0 && r.Magnitude(m + 1)
  {
    var k := 2 * (m + 1);
    ModPCongruent(k * P, 0, k);
    hide ModP;
    var n := 0xFFFFFFFFFFFFF * k;
    assert Limbs(0xFFFFEFFFFFC2F * k, n, n, n, 0x0FFFFFFFFFFFF * k).Value() == k * P;
  }

  method ColumnsOfSquare(b0: u64, a1: u64, a2: u64, a3: u64, b4: u64) returns (p: Columns)
    requires Limbs(b0, a1, a2, a3, b4).Multipliable()
    ensures p == Cols(Limbs(b0, a1, a2, a3, b4), Limbs(b0, a1, a2, a3, b4))
  {
    var a0, a4 := b0, b4;
    SquareColumns(Limbs(a0, a1, a2, a3, a4));
    hide Prod, Cols;
    var a0x: u64, a1x: u64, a2x: u64, a4x: u64 := a0 * 2, a1 * 2, a2 * 2, a4 * 2;
    var p3 := Prod(a0x, a3) + Prod(a1x, a2);
    var p8 := Prod(a4, a4);
    a4 := a4x;
    var p4 := Prod(a0, a4) + Prod(a1x, a3) + Prod(a2, a2);
    var p0 := Prod(a0, a0);
    var p5 := Prod(a1, a4) + Prod(a2x, a3);
    a0 := a0x;
    var p1 := Prod(a0, a1);
    var p6 := Prod(a2, a4) + Prod(a3, a3);
    var p2 := Prod(a0, a2) + Prod(a1, a1);
    var p7 := Prod(a3, a4);
    p := Columns(p0, p1, p2, p3, p4, p5, p6, p7, p8);
  }

  /** A doubled factor stands for both cross products. */
  lemma CrossProducts(a: Limbs)
    ensures Prod(a.n0 * 2, a.n3) == Prod(a.n0, a.n3) + Prod(a.n3, a.n0)
    ensures Prod(a.n1 * 2, a.n2) == Prod(a.n1, a.n2) + Prod(a.n2, a.n1)
    ensures Prod(a.n0, a.n4 * 2) == Prod(a.n0, a.n4) + Prod(a.n4, a.n0)
    ensures Prod(a.n1 * 2, a.n3) == Prod(a.n1, a.n3) + Prod(a.n3, a.n1)
    ensures Prod(a.n1, a.n4 * 2) == Prod(a.n1, a.n4) + Prod(a.n4, a.n1)
    ensures Prod(a.n2 * 2, a.n3) == Prod(a.n2, a.n3) + Prod(a.n3, a.n2)
    ensures Prod(a.n0 * 2, a.n1) == Prod(a.n0, a.n1) + Prod(a.n1, a.n0)
    ensures Prod(a.n2, a.n4 * 2) == Prod(a.n2, a.n4) + Prod(a.n4, a.n2)
    ensures Prod(a.n0 * 2, a.n2) == Prod(a.n0, a.n2) + Prod(a.n2, a.n0)
    ensures Prod(a.n3, a.n4 * 2) == Prod(a.n3, a.n4) + Prod(a.n4, a.n3)
  {
  }

  /** The columns of a square from five squares and ten doubled cross products. */
  lemma SquareColumns(a: Limbs)
    ensures var a0x, a1x, a2x, a4x := a.n0 * 2, a.n1 * 2, a.n2 * 2, a.n4 * 2;
            Cols(a, a) == Columns(Prod(a.n0, a.n0), Prod(a0x, a.n1), Prod(a0x, a.n2) + Prod(a.n1, a.n1),
                                  Prod(a0x, a.n3) + Prod(a1x, a.n2),
                                  Prod(a.n0, a4x) + Prod(a1x, a.n3) + Prod(a.n2, a.n2),
                                  Prod(a.n1, a4x) + Prod(a2x, a.n3), Prod(a.n2, a4x) + Prod(a.n3, a.n3),
                                  Prod(a.n3, a4x), Prod(a.n4, a.n4))
  {
    CrossProducts(a);
    hide Prod;
  }
}

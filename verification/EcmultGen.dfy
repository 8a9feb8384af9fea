/** Generator multiplication by a blinded comb: 64 tables of 16 offset points, and a state that is re-randomised. */
module EcmultGen {
  import opened Words
  import opened Scalars
  import opened Group
  import opened Wnaf

  /** The coefficient of U in the offset of table j: 2^j, and for the last one what makes all of them cancel. */
  function Offset(j: nat): int {
    if j < 63 then Pow2(j) else 1 - Pow2(j)
  }

  /** The offsets of the first n tables together. */
  function OffsetSum(n: nat): int {
    if n == 0 then 0 else OffsetSum(n - 1) + Offset(n - 1)
  }

  lemma {:induction false} OffsetsBeforeLast(n: nat)
    requires n <= 63
    ensures OffsetSum(n) == Pow2(n) - 1
  {
    if n > 0 {
      OffsetsBeforeLast(n - 1);
    }
  }

  lemma OffsetsCancel(n: nat)
    requires n == 64
    ensures OffsetSum(n) == 0
  {
    OffsetsBeforeLast(n - 1);
  }

  /** Entry i of table j is 16^j * i * G + U_j. */
  function Entry(j: nat, i: nat, u: int): int {
    i * Pow2(4 * j) + Offset(j) * u
  }

  lemma EntryAt(j: nat, i: nat, u: int)
    requires j < 64
    ensures Entry(j, i, u) == i * Pow2(4 * j) + (if j < 63 then Pow2(j) else 1 - Pow2(63)) * u
  {
    hide Pow2;
  }

  lemma NextEntry(j: nat, i: nat, u: int)
    ensures Entry(j, i, u) + Pow2(4 * j) == Entry(j, i + 1, u)
  {
    MulDistrib(i, 1, Pow2(4 * j));
  }

  /** The offset point is such that no table entry is infinity; stored entries cannot be. */
  ghost predicate Usable(u: Point) {
    forall j: nat, i: nat :: j < 64 && i < 16 ==> Times(Entry(j, i, u)) != INFINITY
  }

  /** 16 * gbase. */
  method TimesSixteen(gbase: Point, ghost j: nat) returns (r: Point)
    requires gbase == Times(Pow2(4 * j))
    ensures r == Times(Pow2(4 * (j + 1)))
  {
    hide Times;
    r := gbase;
    var i := 0;
    while i < 4
      invariant 0 <= i <= 4 && r == Times(Pow2(4 * j + i))
    {
      DoubleTimes(Pow2(4 * j + i));
      r := Double(r);
      i := i + 1;
    }
    assert 4 * j + 4 == 4 * (j + 1);
  }

  /** The offset of the next table: doubled, and turned into (1 - 2^63) * U before the last. */
  method NextOffset(numsbase: Point, nums: Point, j: nat) returns (r: Point)
    requires j < 63 ==> numsbase == Times(Offset(j) * nums)
    ensures j < 63 ==> r == Times(Offset(j + 1) * nums)
  {
    var p := Pow2(j);
    assert j < 63 ==> Offset(j) == p && Offset(j + 1) == if j == 62 then 1 - 2 * p else 2 * p;
    hide Pow2, Offset, Times;
    r := Double(numsbase);
    DoubleTimes(p * nums);
    MulAssoc(2, p, nums);
    if j == 62 {
      NegTimes(2 * p * nums);
      r := Neg(r);
      TimesOfPoint(nums);
      AddTimes(0 - 2 * p * nums, nums);
      r := Add(r, nums);
      MulDistrib(1, 2 * p, nums);
    }
  }

  /** One table: numsbase, numsbase + gbase, ..., numsbase + 15 * gbase. */
  method FillTable(precj: array<Point>, j: nat, gbase: Point, numsbase: Point, ghost u: int)
    requires j < 64 && precj.Length == 1024 && gbase == Times(Pow2(4 * j)) && numsbase == Times(Offset(j) * u)
    modifies precj
    ensures forall i :: 0 <= i < 16 ==> precj[j * 16 + i] == Times(Entry(j, i, u))
    ensures forall k :: 0 <= k < j * 16 ==> precj[k] == old(precj[k])
  {
    hide Times;
    precj[j * 16] := numsbase;
    assert Entry(j, 0, u) == Offset(j) * u by { assert 0 * Pow2(4 * j) == 0; }
    hide Entry, Pow2, Offset;
    var i := 1;
    while i < 16
      invariant 1 <= i <= 16
      invariant forall k :: 0 <= k < i ==> precj[j * 16 + k] == Times(Entry(j, k, u))
      invariant forall k :: 0 <= k < j * 16 ==> precj[k] == old(precj[k])
    {
      AddTimes(Entry(j, i - 1, u), Pow2(4 * j));
      NextEntry(j, i - 1, u);
      precj[j * 16 + i] := Add(precj[j * 16 + i - 1], gbase);
      i := i + 1;
    }
  }

  /** All 64 tables in one array. */
  method FillTables(precj: array<Point>, nums: Point)
    requires precj.Length == 1024
    modifies precj
    ensures forall j: nat, i: nat :: j < 64 && i < 16 ==> precj[j * 16 + i] == Times(Entry(j, i, nums))
  {
    var gbase, numsbase := G, nums;
    var j := 0;
    assert Pow2(4 * j) == 1 && Offset(j) == 1 by { assert Pow2(0) == 1; }
    TimesOfPoint(G);
    TimesOfPoint(nums);
    hide Times, Entry, Pow2, Offset;
    while j < 64
      invariant 0 <= j <= 64
      invariant j < 64 ==> gbase == Times(Pow2(4 * j)) && numsbase == Times(Offset(j) * nums)
      invariant forall m: nat, i: nat :: m < j && i < 16 ==> precj[m * 16 + i] == Times(Entry(m, i, nums))
    {
      FillTable(precj, j, gbase, numsbase, nums);
      gbase := TimesSixteen(gbase, j);
      numsbase := NextOffset(numsbase, nums, j);
      j := j + 1;
    }
  }

  /** The tables in the form they are kept in, row by row; a stored entry cannot be infinity. */
  method StoreTables(precj: array<Point>, ghost nums: Point) returns (prec: array2<Point>)
    requires precj.Length == 1024 && Usable(nums)
    requires forall j: nat, i: nat :: j < 64 && i < 16 ==> precj[j * 16 + i] == Times(Entry(j, i, nums))
    ensures fresh(prec) && prec.Length0 == 64 && prec.Length1 == 16
    ensures forall j: nat, i: nat :: j < 64 && i < 16 ==> prec[j, i] == Times(Entry(j, i, nums)) != INFINITY
  {
    hide Times, Entry;
    prec := new Point[64, 16];
    var j := 0;
    while j < 64
      invariant 0 <= j <= 64
      invariant forall m: nat, i: nat :: m < j && i < 16 ==> prec[m, i] == Times(Entry(m, i, nums)) != INFINITY
    {
      var i := 0;
      while i < 16
        invariant 0 <= i <= 16
        invariant forall m: nat, k: nat :: m < j && k < 16 ==> prec[m, k] == Times(Entry(m, k, nums)) != INFINITY
        invariant forall k: nat :: k < i ==> prec[j, k] == Times(Entry(j, k, nums)) != INFINITY
      {
        prec[j, i] := precj[j * 16 + i];
        i := i + 1;
      }
      j := j + 1;
    }
  }

  class GenContext {
    var prec: array2?<Point>
    const blind: Scalar
    var initial: Point
    ghost var u: Point

    constructor ()
      ensures prec == null && fresh(blind)
    {
      hide Limbs4;
      prec, initial, u := null, INFINITY, INFINITY;
      blind := new Scalar(0, 0, 0, 0);
    }

    ghost predicate TablesBuilt()
      reads this, prec
    {
      && prec != null && prec.Length0 == 64 && prec.Length1 == 16
      && forall j: nat, i: nat :: j < 64 && i < 16 ==> prec[j, i] == Times(Entry(j, i, u)) != INFINITY
    }

    /** The two halves of the blinding cancel: initial is -blind * G. */
    ghost predicate Consistent()
      reads this, prec, blind
    {
      TablesBuilt() && blind.Reduced() && initial == Times(0 - blind.Value())
    }

    /** Fills the tables from the offset point, which is numsGe + G, and sets the blinding afresh. */
    method Build(numsGe: Point, b: Scalar)
      requires prec != null ==> Consistent()
      requires Usable(Add(numsGe, G)) && b != blind && b.Reduced() && b.Value() != 0
      modifies this, blind, b
      ensures Consistent()
      ensures old(prec) != null ==> prec == old(prec) && initial == old(initial) && blind.Value() == old(blind.Value())
      ensures old(prec) == null ==> forall j: nat, i: nat :: j < 64 && i < 16 ==>
                prec[j, i] == Times(i * Pow2(4 * j) + (if j < 63 then Pow2(j) else 1 - Pow2(63)) * Add(numsGe, G))
      ensures old(prec) == null ==> blind.Value() == N - old(b.Value()) && initial == Multiple(old(b.Value()), G)
    {
      if prec != null {
        return;
      }
      hide Times, Entry, Scalar.Value, Limbs4, Pow2, Multiple;
      var nums := Add(numsGe, G);
      var precj := new Point[1024](_ => INFINITY);
      FillTables(precj, nums);
      u := nums;
      prec := StoreTables(precj, nums);
      Blind(false, b);
      forall j: nat, i: nat | j < 64 && i < 16
        ensures prec[j, i] == Times(i * Pow2(4 * j) + (if j < 63 then Pow2(j) else 1 - Pow2(63)) * nums)
      {
        EntryAt(j, i, nums);
      }
    }

    /** Entry `bits` of table j, by scanning the row. */
    method Lookup(j: nat, bits: int) returns (adds: Point)
      requires TablesBuilt() && j < 64 && 0 <= bits < 16
      ensures adds == Times(Entry(j, bits, u)) != INFINITY
    {
      adds := INFINITY;
      var i := 0;
      while i < 16
        invariant 0 <= i <= 16
        invariant bits < i ==> adds == prec[j, bits]
      {
        if i == bits {
          adds := prec[j, i];
        }
        i := i + 1;
      }
    }

    /** r = gn * G, whatever the blinding currently is. */
    method EcmultGen(gn: Scalar) returns (r: Point)
      requires Consistent() && gn.Reduced()
      ensures r == Multiple(gn.Value(), G)
    {
      hide Times, Entry, Scalar.Value, Limbs4, BitsOf, LowBits, OffsetSum, Pow2, Offset, Multiple, Comb;
      ghost var v := gn.Value();
      r := initial;
      var gnb := new Scalar(0, 0, 0, 0);
      var overflow := gnb.Add(gn, blind);
      ghost var x, b := gnb.Value(), blind.Value();
      var j := 0;
      CombStart(x, u, b);
      while j < 64
        invariant 0 <= j <= 64 && r == Times(Comb(x, j, u, b)) && x == gnb.Value()
      {
        var bits := gnb.GetBits(j * 4, 4);
        BitsRange(x, j);
        var add := Lookup(j, bits);
        AddTimes(Comb(x, j, u, b), Entry(j, bits, u));
        CombStep(x, j, u, b, bits);
        r := AddGe(r, add);
        j := j + 1;
      }
      CombEnd(x, j, u, b, v, overflow);
    }

    /**
     * Replaces the blinding by a new one, b drawn from a generator seeded by the caller; without a seed the
     * blinding is first set to the fixed value 1.
     */
    method Blind(seeded: bool, b: Scalar)
      requires TablesBuilt() && (seeded ==> Consistent())
      requires b != blind && b.Reduced() && b.Value() != 0
      modifies this`initial, blind, b
      ensures Consistent()
      ensures blind.Value() == N - old(b.Value()) && initial == Multiple(old(b.Value()), G)
    {
      hide Times, Entry, Limbs4, Multiple;
      ghost var v := b.Value();
      if !seeded {
        NegTimes(1);
        TimesOfPoint(G);
        initial := Neg(G);
        blind.SetInt(1);
        assert b.Value() == v;
      }
      var gb := EcmultGen(b);
      b.Negate(b);
      BlindingCancels(v);
      blind.Copy(b);
      initial := gb;
    }
  }

  /** The running exponent after j tables: -blind, the low digits of x and the offsets so far. */
  function Comb(x: int, j: nat, u: int, b: int): int {
    0 - b + LowBits(x, 4 * j) + OffsetSum(j) * u
  }

  lemma CombStart(x: int, u: int, b: int)
    ensures Comb(x, 0, u, b) == 0 - b
  {
    assert Pow2(0) == 1 && OffsetSum(0) * u == 0;
  }

  lemma BitsRange(x: int, j: nat)
    ensures 0 <= BitsOf(x, j * 4, 4) < 16
  {
    assert Pow2(4) == 16;
    hide LowBits;
  }

  lemma CombStep(x: int, j: nat, u: int, b: int, bits: nat)
    requires 0 <= x && bits == BitsOf(x, j * 4, 4)
    ensures Comb(x, j, u, b) + Entry(j, bits, u) == Comb(x, j + 1, u, b)
  {
    hide LowBits, BitsOf, Pow2, Offset;
    TakeBits(x, 4 * j, 4);
    assert 4 * j + 4 == 4 * (j + 1);
    MulDistrib(OffsetSum(j), Offset(j), u);
  }

  /** After all 64 tables the offsets are gone and the blinding cancels up to the overflow of n + blind. */
  lemma CombEnd(x: int, j: nat, u: int, b: int, v: int, overflow: int)
    requires j == 64 && 0 <= x < N && x == v + b - overflow * N
    ensures Times(Comb(x, j, u, b)) == Multiple(v, G)
  {
    hide OffsetSum, Times, Pow2;
    OffsetsCancel(j);
    assert LowBits(x, 4 * j) == x by { Pow2At(4 * j); DivModUnique(x, W4, 0, x); }
    TimesCongruent(Comb(x, j, u, b), v, 0 - overflow);
  }

  lemma BlindingCancels(v: int)
    requires 0 < v < N
    ensures Negated(v) == N - v && Multiple(v, G) == Times(0 - Negated(v))
  {
    TimesCongruent(v, v - N, 1);
  }
}

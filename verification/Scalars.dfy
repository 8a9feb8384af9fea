/** Scalars modulo the group order: four 64-bit limbs, updated in place by every operation. */
module Scalars {
  import opened Words

  // The group order N, its complement N_C to 2^256, and half of N, by limb.
  const N: int := 0xFFFFFFFFFFFFFFFFFFFFFFFFFFFFFFFEBAAEDCE6AF48A03BBFD25E8CD0364141
  const N_0: int := 0xBFD25E8CD0364141
  const N_1: int := 0xBAAEDCE6AF48A03B
  const N_2: int := 0xFFFFFFFFFFFFFFFE
  const N_3: int := 0xFFFFFFFFFFFFFFFF
  const N_C: int := 0x1_4551231950B75FC4_402DA1732FC9BEBF
  const N_C_0: int := 0x402DA1732FC9BEBF
  const N_C_1: int := 0x4551231950B75FC4
  const N_H_0: int := 0xDFE92F46681B20A0
  const N_H_1: int := 0x5D576E7357A4501D
  const N_H_2: int := 0xFFFFFFFFFFFFFFFF
  const N_H_3: int := 0x7FFFFFFFFFFFFFFF

  function Limbs4(d0: int, d1: int, d2: int, d3: int): int {
    d0 + 0x1_0000_0000_0000_0000 * d1 + 0x1_0000_0000_0000_0000_0000_0000_0000_0000 * d2
    + 0x1_0000_0000_0000_0000_0000_0000_0000_0000_0000_0000_0000_0000 * d3
  }

  function ModN(x: int): (r: int)
    ensures 0 <= r < N
  {
    DivModOf(x, N);
    x % N
  }

  /** The representative of a scalar in (-N/2, N/2]. */
  function Signed(v: int): int {
    if v > N / 2 then v - N else v
  }

  class Scalar {
    var d0: u64
    var d1: u64
    var d2: u64
    var d3: u64

    constructor (a0: u64, a1: u64, a2: u64, a3: u64)
      ensures Value() == Limbs4(a0, a1, a2, a3)
    {
      d0, d1, d2, d3 := a0, a1, a2, a3;
    }

    ghost function Value(): (v: int)
      reads this
      ensures 0 <= v < W4
    {
      Limbs4(d0, d1, d2, d3)
    }

    ghost predicate Reduced()
      reads this
    {
      Value() < N
    }

    /** 1 when the limbs hold N or more, by comparing limbs from the top. */
    method CheckOverflow() returns (overflow: int)
      ensures overflow == if Value() >= N then 1 else 0
    {
      var yes, no := false, false;
      no := no || d3 < N_3;
      no := no || d2 < N_2;
      yes := yes || (d2 > N_2 && !no);
      no := no || d1 < N_1;
      yes := yes || (d1 > N_1 && !no);
      yes := yes || (d0 >= N_0 && !no);
      overflow := if yes then 1 else 0;
    }

    /** 1 when the scalar exceeds N / 2. */
    method IsHigh() returns (high: int)
      ensures high == if Value() > N / 2 then 1 else 0
    {
      var yes, no := false, false;
      no := no || d3 < N_H_3;
      yes := yes || (d3 > N_H_3 && !no);
      no := no || (d2 < N_H_2 && !yes);
      no := no || (d1 < N_H_1 && !yes);
      yes := yes || (d1 > N_H_1 && !no);
      yes := yes || (d0 > N_H_0 && !no);
      high := if yes then 1 else 0;
    }

    predicate IsZero()
      reads this
      ensures IsZero() <==> Value() == 0
    {
      d0 == 0 && d1 == 0 && d2 == 0 && d3 == 0
    }

    predicate IsOne()
      reads this
      ensures IsOne() <==> Value() == 1
    {
      d0 == 1 && d1 == 0 && d2 == 0 && d3 == 0
    }

    predicate IsEven()
      reads this
      ensures IsEven() <==> Value() % 2 == 0
    {
      d0 % 2 == 0
    }

    method SetInt(v: u32)
      modifies this
      ensures Value() == v
    {
      d0, d1, d2, d3 := v, 0, 0, 0;
    }

    method Copy(a: Scalar)
      modifies this
      ensures Value() == old(a.Value())
    {
      d0, d1, d2, d3 := a.d0, a.d1, a.d2, a.d3;
    }

    /** Adds overflow * (2^256 - N) and drops the carry out of the top limb. */
    method Reduce(overflow: int) returns (over: int, ghost dropped: int)
      requires 0 <= overflow <= 1
      modifies this
      ensures over == overflow
      ensures Value() + W4 * dropped == old(Value()) + overflow * N_C
    {
      var t;
      d0, d1, d2, d3, t := AddLimbs(d0, d1, d2, d3, overflow * N_C_0, overflow * N_C_1, overflow, 0);
      over, dropped := overflow, t;
    }

    /** The sum modulo N; the result may share storage with either operand. */
    method Add(a: Scalar, b: Scalar) returns (overflow: int)
      requires a.Reduced() && b.Reduced()
      modifies this
      ensures Value() == old(a.Value() + b.Value()) - overflow * N
      ensures Reduced() && 0 <= overflow <= 1
    {
      ghost var sum := a.Value() + b.Value();
      var t;
      d0, d1, d2, d3, t := AddLimbs(a.d0, a.d1, a.d2, a.d3, b.d0, b.d1, b.d2, b.d3);
      ghost var v := Value();
      assert v + W4 * t == sum;
      var over := CheckOverflow();
      overflow := t + over;
      AddReduces(sum, v, t, overflow);
      ghost var dropped;
      overflow, dropped := Reduce(overflow);
      assert dropped == overflow - t;
    }

    /** Adds flag * 2^bit; with flag = 0 the bit number is pushed out of range of every limb. */
    method CaddBit(bit: nat, flag: int)
      requires bit < 256 && 0 <= flag <= 1
      requires Value() + flag * Pow2(bit) < W4
      modifies this
      ensures Value() == old(Value()) + flag * Pow2(bit)
    {
      hide Limbs4, Mask;
      ghost var v, w := Value(), flag * Pow2(bit);
      var b := if flag == 0 then bit + 0x100 else bit;
      BitLimbs(bit, flag, b);
      var p: u64 := Pow2(b % 64);
      var q := b / 64;
      var r0, r1, r2, r3, t :=
        AddLimbs(d0, d1, d2, d3, Mask(p, q == 0), Mask(p, q == 1), Mask(p, q == 2), Mask(p, q == 3));
      NoCarryOut(r0, r1, r2, r3, t, v + w);
      d0, d1, d2, d3 := r0, r1, r2, r3;
    }

    /** The additive inverse modulo N. */
    method Negate(a: Scalar)
      requires a.Reduced()
      modifies this
      ensures Value() == Negated(old(a.Value()))
    {
      hide Limbs4, Negated;
      var nonzero := !a.IsZero();
      assert a.Value() == Limbs4(a.d0, a.d1, a.d2, a.d3);
      var r0, r1, r2, r3 := NegateLimbs(a.d0, a.d1, a.d2, a.d3, nonzero);
      d0, d1, d2, d3 := r0, r1, r2, r3;
    }

    /** Negates when flag is 1, without branching on it; returns the sign applied. */
    method CondNegate(flag: int) returns (sign: int)
      requires 0 <= flag <= 1 && Reduced()
      modifies this
      ensures sign == if flag == 1 then -1 else 1
      ensures Value() == if flag == 1 then Negated(old(Value())) else old(Value())
    {
      ghost var v := Value();
      var mask := flag == 1;
      var nonzero := !IsZero();
      CondComplement(d0, d1, d2, d3, mask);
      hide Mask, XorMask, Limbs4;
      var r0, r1, r2, r3, t :=
        AddLimbs(XorMask(d0, mask), XorMask(d1, mask), XorMask(d2, mask), XorMask(d3, mask),
                 Mask(N_0 + 1, mask), Mask(N_1, mask), Mask(N_2, mask), Mask(N_3, mask));
      CondNegatedLimbs(v, r0, r1, r2, r3, t, mask);
      MaskLimbs(r0, r1, r2, r3, nonzero);
      d0, d1, d2, d3 := Mask(r0, nonzero), Mask(r1, nonzero), Mask(r2, nonzero), Mask(r3, nonzero);
      sign := if mask then -1 else 1;
    }

    /** Limb q, and what stands below and above it. */
    function Limb(q: nat): u64
      requires q < 4
      reads this
    {
      match q case 0 => d0 case 1 => d1 case 2 => d2 case _ => d3
    }

    /** `count` bits from bit `offset`, all in one limb. */
    method GetBits(offset: nat, count: nat) returns (bits: int)
      requires offset < 256 && 0 < count <= 32 && offset % 64 + count <= 64
      ensures bits == BitsOf(Value(), offset, count)
    {
      var q, s := offset / 64, offset % 64;
      bits := Limb(q) / Pow2(s) % Pow2(count);
      BitWeight(offset);
      ghost var lo, y, hi := AroundLimb(d0, d1, d2, d3, q);
      BitsInWord(Value(), lo, LimbWeight(q), y, Limb(q), hi, s, count);
    }

    /** `count` bits from bit `offset`, possibly across two limbs; the two parts share no bit, so | is +. */
    method GetBitsVar(offset: nat, count: nat) returns (bits: int)
      requires 0 < count < 32 && offset + count <= 256
      ensures bits == BitsOf(Value(), offset, count)
    {
      if (offset + count - 1) / 64 == offset / 64 {
        bits := GetBits(offset, count);
      } else {
        var q, s := offset / 64, offset % 64;
        bits := (Limb(q) / Pow2(s) + Limb(q + 1) * Pow2(64 - s) % W) % Pow2(count);
        BitWeight(offset);
        ghost var lo, y, hi := AroundLimb(d0, d1, d2, d3, q);
        ghost var _, _, hi2 := AroundLimb(d0, d1, d2, d3, q + 1);
        BitsAcrossWords(Value(), lo, LimbWeight(q), y, Limb(q), Limb(q + 1), hi2, s, count);
      }
    }

    /** Returns the low n bits and shifts the scalar right by n. */
    method ShrInt(n: nat) returns (ret: int)
      requires 0 < n < 16
      modifies this
      ensures old(Value()) == Value() * Pow2(n) + ret && 0 <= ret < Pow2(n)
    {
      ghost var v := Value();
      ret := d0 % Pow2(n);
      var r0 := ShiftedLimb(d0, d1, n);
      var r1 := ShiftedLimb(d1, d2, n);
      var r2 := ShiftedLimb(d2, d3, n);
      var r3 := ShiftedLimb(d3, 0, n);
      ShiftedLimbs(d0, d1, d2, d3, r0, r1, r2, r3, Pow2(n));
      ghost var r := Limbs4(r0, r1, r2, r3);
      assert v == r * Pow2(n) + ret;
      d0, d1, d2, d3 := r0, r1, r2, r3;
      assert Value() == r;
    }
  }

  function Negated(v: int): int {
    if v == 0 then 0 else N - v
  }

  /** (lo >> n) + (hi << (64 - n)) on 64-bit words. */
  method ShiftedLimb(lo: u64, hi: u64, n: nat) returns (r: u64)
    requires 0 < n < 64
    ensures r * Pow2(n) + lo % Pow2(n) == lo + W * (hi % Pow2(n))
  {
    ShiftedLimbFits(lo, hi, n);
    r := lo / Pow2(n) + (hi * Pow2(64 - n)) % W;
  }

  lemma ShiftedLimbs(d0: int, d1: int, d2: int, d3: int, r0: int, r1: int, r2: int, r3: int, p: int)
    requires 0 < p
    requires r0 * p + d0 % p == d0 + W * (d1 % p)
    requires r1 * p + d1 % p == d1 + W * (d2 % p)
    requires r2 * p + d2 % p == d2 + W * (d3 % p)
    requires r3 * p + d3 % p == d3
    ensures Limbs4(d0, d1, d2, d3) == Limbs4(r0, r1, r2, r3) * p + d0 % p
  {
    MulDistrib(r0, W * r1, p);
    MulDistrib(r0 + W * r1, W2 * r2, p);
    MulDistrib(r0 + W * r1 + W2 * r2, W3 * r3, p);
    MulAssoc(W, r1, p);
    MulAssoc(W2, r2, p);
    MulAssoc(W3, r3, p);
  }

  lemma ShiftedLimbFits(lo: u64, hi: u64, n: nat)
    requires 0 < n < 64
    ensures var r := lo / Pow2(n) + (hi * Pow2(64 - n)) % W;
            0 <= r < W && r * Pow2(n) + lo % Pow2(n) == lo + W * (hi % Pow2(n))
  {
    var p, q: int := Pow2(n), Pow2(64 - n);
    assert p * q == W by {
      Pow2Add(n, 64 - n);
      Pow2At(n + (64 - n));
    }
    ShiftedLimbArith(lo, hi, p, q);
  }

  lemma ShiftedLimbArith(lo: int, hi: int, p: int, q: int)
    requires 0 <= lo < W && 0 <= hi && 0 < p && 0 < q && p * q == W
    ensures var r := lo / p + (hi * q) % W; 0 <= r < W && r * p + lo % p == lo + W * (hi % p)
  {
    var h, l := hi % p, lo / p;
    DivModOf(lo, p);
    DivModOf(hi, p);
    assert (hi * q) % W == h * q by {
      assert hi * q == (hi / p) * W + h * q by {
        MulDistrib((hi / p) * p, h, q);
        MulAssoc(hi / p, p, q);
      }
      MulLe(h, p - 1, q);
      MulDistrib(p, 1, q);
      MulLe(0, h, q);
      DivModUnique(hi * q, W, hi / p, h * q);
    }
    assert l < q by {
      if l >= q { MulLe(q, l, p); }
    }
    assert h * q <= W - q && 0 <= h * q by {
      MulLe(h, p - 1, q);
      MulDistrib(p, 1, q);
      MulLe(0, h, q);
    }
    assert (l + h * q) * p == l * p + W * h by {
      MulDistrib(l, h * q, p);
      MulAssoc(h, q, p);
    }
  }

  function Mask(x: u64, on: bool): u64 { if on then x else 0 }

  function XorMask(x: u64, on: bool): u64 { if on then W - 1 - x else x }

  /** Limb-wise addition with a 128-bit running carry: the step shared by every operation above. */
  method AddLimbs(a0: u64, a1: u64, a2: u64, a3: u64, b0: u64, b1: u64, b2: u64, b3: u64)
    returns (r0: u64, r1: u64, r2: u64, r3: u64, t: u64)
    ensures Limbs4(r0, r1, r2, r3) + W4 * t == Limbs4(a0, a1, a2, a3) + Limbs4(b0, b1, b2, b3)
  {
    r0, t := TakeLimb(a0 + b0);
    r1, t := TakeLimb(t + a1 + b1);
    r2, t := TakeLimb(t + a2 + b2);
    r3, t := TakeLimb(t + a3 + b3);
  }

  lemma NoCarryOut(r0: u64, r1: u64, r2: u64, r3: u64, t: u64, sum: int)
    requires Limbs4(r0, r1, r2, r3) + W4 * t == sum < W4
    ensures t == 0 && Limbs4(r0, r1, r2, r3) == sum
  {
  }

  /** Complement, add N + 1, and mask. */
  method NegateLimbs(a0: u64, a1: u64, a2: u64, a3: u64, nonzero: bool) returns (r0: u64, r1: u64, r2: u64, r3: u64)
    requires Limbs4(a0, a1, a2, a3) < N && (nonzero <==> Limbs4(a0, a1, a2, a3) != 0)
    ensures Limbs4(r0, r1, r2, r3) == Negated(Limbs4(a0, a1, a2, a3))
  {
    ghost var v := Limbs4(a0, a1, a2, a3);
    assert 0 <= v;
    Complement(a0, a1, a2, a3);
    hide Mask, Limbs4;
    var t;
    r0, r1, r2, r3, t := AddLimbs(W - 1 - a0, W - 1 - a1, W - 1 - a2, W - 1 - a3, N_0 + 1, N_1, N_2, N_3);
    NegatedLimbs(v, r0, r1, r2, r3, t);
    MaskLimbs(r0, r1, r2, r3, nonzero);
    r0, r1, r2, r3 := Mask(r0, nonzero), Mask(r1, nonzero), Mask(r2, nonzero), Mask(r3, nonzero);
  }

  lemma Complement(d0: u64, d1: u64, d2: u64, d3: u64)
    ensures Limbs4(W - 1 - d0, W - 1 - d1, W - 1 - d2, W - 1 - d3) + Limbs4(N_0 + 1, N_1, N_2, N_3)
         == W4 + N - Limbs4(d0, d1, d2, d3)
  {
  }

  /** Complementing the limbs and adding N + 1 subtracts from N, up to a carry out. */
  lemma NegatedLimbs(v: int, r0: u64, r1: u64, r2: u64, r3: u64, t: u64)
    requires 0 <= v < N && Limbs4(r0, r1, r2, r3) + W4 * t == W4 + N - v
    ensures v != 0 ==> Limbs4(r0, r1, r2, r3) == N - v
  {
    var r := Limbs4(r0, r1, r2, r3);
    assert 0 <= r < W4;
  }

  lemma CondNegatedLimbs(v: int, r0: u64, r1: u64, r2: u64, r3: u64, t: u64, mask: bool)
    requires 0 <= v < N && Limbs4(r0, r1, r2, r3) + W4 * t == if mask then W4 + N - v else v
    ensures v != 0 ==> Limbs4(r0, r1, r2, r3) == if mask then N - v else v
  {
    var r := Limbs4(r0, r1, r2, r3);
    assert 0 <= r < W4;
  }

  lemma CondComplement(d0: u64, d1: u64, d2: u64, d3: u64, mask: bool)
    ensures Limbs4(XorMask(d0, mask), XorMask(d1, mask), XorMask(d2, mask), XorMask(d3, mask))
            + Limbs4(Mask(N_0 + 1, mask), Mask(N_1, mask), Mask(N_2, mask), Mask(N_3, mask))
         == if mask then W4 + N - Limbs4(d0, d1, d2, d3) else Limbs4(d0, d1, d2, d3)
  {
  }

  lemma AddReduces(sum: int, v: int, t: int, overflow: int)
    requires v + W4 * t == sum && 0 <= v < W4 && 0 <= t && 0 <= sum < 2 * N
    requires overflow == t + if v >= N then 1 else 0
    ensures 0 <= overflow <= 1 && 0 <= sum - overflow * N < N
    ensures v + overflow * N_C == (sum - overflow * N) + W4 * (overflow - t)
  {
  }

  /** The weight of limb q. */
  function LimbWeight(q: nat): int
    requires q < 4
  {
    match q
    case 0 => 1
    case 1 => 0x1_0000_0000_0000_0000
    case 2 => 0x1_0000_0000_0000_0000_0000_0000_0000_0000
    case _ => 0x1_0000_0000_0000_0000_0000_0000_0000_0000_0000_0000_0000_0000
  }

  /** What stands below limb q, from it upwards, and above it. */
  lemma AroundLimb(d0: u64, d1: u64, d2: u64, d3: u64, q: nat) returns (lo: int, y: int, hi: int)
    requires q < 4
    ensures Limbs4(d0, d1, d2, d3) == y * LimbWeight(q) + lo && 0 <= lo < LimbWeight(q)
    ensures y == (match q case 0 => d0 case 1 => d1 case 2 => d2 case _ => d3) + W * hi
    ensures hi == match q
                  case 0 => d1 + W * (d2 + W * d3)
                  case 1 => d2 + W * d3
                  case 2 => d3
                  case _ => 0
  {
    if q == 0 {
      lo, hi := 0, d1 + W * (d2 + W * d3);
    } else if q == 1 {
      lo, hi := d0, d2 + W * d3;
    } else if q == 2 {
      lo, hi := d0 + W * d1, d3;
    } else {
      lo, hi := d0 + W * d1 + W2 * d2, 0;
    }
    y := (match q case 0 => d0 case 1 => d1 case 2 => d2 case _ => d3) + W * hi;
  }

  lemma LimbWeightIsPow2(q: nat)
    requires q < 4
    ensures Pow2(64 * q) == LimbWeight(q)
  {
    Pow2At(64 * q);
  }

  /** Bit b of a scalar is bit b % 64 of limb b / 64. */
  lemma BitWeight(bit: nat)
    requires bit < 256
    ensures Pow2(bit % 64) < W && Pow2(bit) == Pow2(bit % 64) * LimbWeight(bit / 64)
  {
    var n := 64 * (bit / 64);
    Pow2Add(bit % 64, n);
    LimbWeightIsPow2(bit / 64);
    Pow2Below(bit % 64, 64);
    Pow2At(64 + 0 * n);
  }

  lemma MaskLimbs(r0: u64, r1: u64, r2: u64, r3: u64, on: bool)
    ensures Limbs4(Mask(r0, on), Mask(r1, on), Mask(r2, on), Mask(r3, on)) == if on then Limbs4(r0, r1, r2, r3) else 0
  {
  }

  lemma MaskedLimbs(p: u64, q: nat)
    ensures Limbs4(Mask(p, q == 0), Mask(p, q == 1), Mask(p, q == 2), Mask(p, q == 3))
         == if q < 4 then p * LimbWeight(q) else 0
  {
  }

  lemma BitLimbs(bit: nat, flag: int, b: nat)
    requires bit < 256 && 0 <= flag <= 1 && b == if flag == 0 then bit + 0x100 else bit
    ensures Pow2(b % 64) < W
    ensures var p, q := Pow2(b % 64), b / 64;
            Limbs4(Mask(p, q == 0), Mask(p, q == 1), Mask(p, q == 2), Mask(p, q == 3)) == flag * Pow2(bit)
  {
    assert b % 64 == bit % 64;
    BitWeight(bit);
    MaskedLimbs(Pow2(b % 64), b / 64);
  }
}

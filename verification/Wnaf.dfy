/** The variable-time signed-digit recoding used by the double multiplication. */
module Wnaf {
  import opened Words
  import opened Scalars
  import opened Digits

  /** The signed value the recoding works with: negative when bit 255 of the scalar is set. */
  function TopBitSigned(v: int): int {
    if v >= 0x8000_0000_0000_0000_0000_0000_0000_0000_0000_0000_0000_0000_0000_0000_0000_0000 then v - N else v
  }

  function Sign(x: int): int { if x < 0 then -1 else 1 }

  /** Low bits of m up to b + n: those below b, then n more. */
  lemma TakeBits(m: int, b: nat, n: nat)
    requires 0 <= m
    ensures LowBits(m, b + n) == LowBits(m, b) + Pow2(b) * BitsOf(m, b, n)
    ensures m / Pow2(b + n) == m / Pow2(b) / Pow2(n)
  {
    Pow2Add(b, n);
    SplitProduct(m, Pow2(b), Pow2(n));
  }

  /** A window read at a bit unequal to the carry gives an odd word. */
  lemma OddWord(x: int, half: int, c: int)
    requires 0 <= x && 0 < half && 0 <= c <= 1 && x % 2 != c
    ensures (x % (2 * half) + c) % 2 == 1
    ensures 0 < x % (2 * half) + c < 2 * half
  {
    SplitProduct(x, 2, half);
    DivModOf(x, 2 * half);
  }

  /** Recoding an odd word below 2h against the threshold h, itself even. */
  lemma RecodeWord(word: int, h: int)
    requires 0 < word < 2 * h && word % 2 == 1 && h % 2 == 0
    ensures word / h % 2 == if word > h then 1 else 0
    ensures var d := word - word / h % 2 * (2 * h); d % 2 == 1 && 0 - h < d < h
  {
    if word < h { DivModUnique(word, h, 0, word); } else { DivModUnique(word, h, 1, word - h); }
  }

  lemma TopBit(x: int, half: int)
    requires 0 <= x && 0 < half && x % (2 * half) >= half
    ensures x / half % 2 == 1
  {
    SplitProduct(x, half, 2);
    DivModOf(x, half);
  }

  /** The recoded digit is odd and small; a carry out needs a full window whose top bit was set. */
  lemma WindowDigit(m: int, b: nat, now: nat, w: nat, c: int, word: int)
    requires 0 <= m && 2 <= w && 1 <= now <= w && 0 <= c <= 1
    requires BitsOf(m, b, 1) != c && word == BitsOf(m, b, now) + c
    ensures var c' := word / Pow2(w - 1) % 2;
            && (c' == 1 ==> now == w && BitsOf(m, b + now - 1, 1) == 1)
            && OddDigit(w, word - c' * Pow2(w))
  {
    var x, h, half := m / Pow2(b), Pow2(w - 1), Pow2(now - 1);
    assert Pow2(now) == 2 * half && Pow2(w) == 2 * h && h == 2 * Pow2(w - 2) && Pow2(1) == 2;
    assert word % 2 == 1 && 0 < word < 2 * half by { OddWord(x, half, c); }
    assert 2 * half <= 2 * h by { Pow2Monotone(now, w); }
    RecodeWord(word, h);
    if word > h {
      if now < w {
        Pow2Monotone(now, w - 1);
      } else {
        assert x / half % 2 == 1 by { TopBit(x, half); }
        assert m / Pow2(b + now - 1) == x / half by { TakeBits(m, b, now - 1); }
      }
    }
  }

  /** What the digits below bit b spell when c is still to be carried: m modulo 2^b, less the carry. */
  function Partial(sgn: int, m: int, b: nat, c: int): int {
    sgn * (LowBits(m, b) - c * Pow2(b))
  }

  /** Skipping a bit equal to the carry, or consuming a window, keeps the running identity. */
  lemma AdvancePartial(sgn: int, m: int, b: nat, n: nat, c: int, digit: int, c': int, d: seq<int>, z: seq<int>)
    requires 0 <= m && |d| == b && Eval(1, d) == Partial(sgn, m, b, c)
    requires digit == BitsOf(m, b, n) + c - c' * Pow2(n)
    requires forall i :: 0 <= i < |z| ==> z[i] == 0
    ensures Eval(1, d + [sgn * digit] + z) == Partial(sgn, m, b + n, c')
  {
    hide LowBits, BitsOf, Eval, Pow2;
    var p, q, low, window := Pow2(b), Pow2(n), LowBits(m, b), BitsOf(m, b, n);
    assert Eval(1, d + [sgn * digit] + z) == Eval(1, d) + p * (sgn * digit) by { EvalAppend(1, d, b, sgn * digit, z); }
    assert LowBits(m, b + n) == low + p * window by { TakeBits(m, b, n); }
    assert Pow2(b + n) == p * q by { Pow2Add(b, n); }
    PartialStep(sgn, low, window, c, c', p, q, digit);
  }

  lemma PartialStep(sgn: int, low: int, window: int, c: int, c': int, p: int, q: int, d: int)
    requires d == window + c - c' * q
    ensures sgn * (low - c * p) + p * (sgn * d) == sgn * (low + p * window - c' * (p * q))
  {
    assert p * (sgn * d) == sgn * (p * d) by { MulAssoc(p, sgn, d); MulAssoc(sgn, p, d); }
    assert p * d == p * window + c * p - c' * (p * q) by {
      MulDistrib(window + c, c' * q, p);
      MulDistrib(window, c, p);
      assert p * (c' * q) == c' * (p * q) by { MulAssoc(p, c', q); MulAssoc(c', p, q); }
    }
    MulDistrib(low - c * p, p * d, sgn);
  }

  lemma TopBitSplit(v: int, top: nat, one: nat, high: int)
    requires 0 <= v < N && top == 255 && one == 1 && high == BitsOf(v, top, one)
    ensures TopBitSigned(v) == if high != 0 then 0 - Negated(v) else v
    ensures high != 0 ==> 0 < Negated(v)
  {
    Pow2At(top);
    Pow2At(one);
    var h := Pow2(top);
    if v < h { DivModUnique(v, h, 0, v); } else { DivModUnique(v, h, 1, v - h); }
  }

  lemma SignedParts(v: int, high: int, sgn: int, m: int)
    requires TopBitSigned(v) == if high != 0 then 0 - Negated(v) else v
    requires 0 <= v && (high != 0 ==> 0 < Negated(v))
    requires sgn == (if high != 0 then -1 else 1) && m == if high != 0 then Negated(v) else v
    ensures Sign(TopBitSigned(v)) == sgn && Abs(TopBitSigned(v)) == m
  {
  }

  /** The digits emitted so far: in the form, zero from `used` upwards, and spelling m's low bits up to a carry. */
  ghost predicate Recoded(w: nat, sgn: int, m: int, d: seq<int>, used: nat, c: int)
    requires w > 0
  {
    && IsWnaf(w, d) && Eval(1, d) == Partial(sgn, m, |d|, c)
    && used <= |d| && (forall i :: used <= i < |d| ==> d[i] == 0) && (used > 0 ==> d[used - 1] != 0)
    && 0 <= c <= 1 && (c == 1 ==> d != [] && BitsOf(m, |d| - 1, 1) == 1)
  }

  lemma RecodedStart(w: nat, sgn: int, m: int)
    requires w > 0
    ensures Recoded(w, sgn, m, [], 0, 0)
  {
    assert Pow2(0) == 1;
    DivModUnique(m, 1, m, 0);
  }

  lemma RecodedSkip(w: nat, sgn: int, m: int, d: seq<int>, used: nat, c: int, d': seq<int>)
    requires w > 0 && 0 <= m && Recoded(w, sgn, m, d, used, c) && (used > 0 ==> |d| >= used - 1 + w)
    requires BitsOf(m, |d|, 1) == c && d' == d + [0]
    ensures Recoded(w, sgn, m, d', used, c)
  {
    WnafAppend(w, d, used, 0, []);
    Pow2At(1);
    AdvancePartial(sgn, m, |d|, 1, c, 0, c, d, []);
    assert d' == d + [sgn * 0] + [] == d + [0] + [];
  }

  lemma NegatedDigit(w: nat, x: int)
    requires w > 0 && OddDigit(w, x)
    ensures OddDigit(w, 1 * x) && OddDigit(w, -1 * x) && x != 0
  {
  }

  lemma RecodedWindow(w: nat, sgn: int, m: int, d: seq<int>, used: nat, c: int, now: nat, digit: int, c': int,
                      d': seq<int>)
    requires w > 0 && 0 <= m && Recoded(w, sgn, m, d, used, c) && (used > 0 ==> |d| >= used - 1 + w)
    requires 1 <= now && digit == BitsOf(m, |d|, now) + c - c' * Pow2(now)
    requires OddDigit(w, digit) && (sgn == 1 || sgn == -1)
    requires 0 <= c' <= 1 && (c' == 1 ==> BitsOf(m, |d| + now - 1, 1) == 1)
    requires |d'| == |d| + now && d'[..|d| + 1] == d + [sgn * digit]
    requires forall i :: |d| < i < |d'| ==> d'[i] == 0
    ensures Recoded(w, sgn, m, d', |d| + 1, c')
  {
    hide LowBits, BitsOf, Eval, Pow2, Partial, OddDigit, IsWnaf;
    var x, z := sgn * digit, d'[|d| + 1..];
    assert d' == d'[..|d| + 1] + z;
    NegatedDigit(w, digit);
    assert d'[|d|] == d'[..|d| + 1][|d|] == x != 0;
    assert IsWnaf(w, d') by { WnafAppend(w, d, used, x, z); }
    assert Eval(1, d') == Partial(sgn, m, |d'|, c') by { AdvancePartial(sgn, m, |d|, now, c, digit, c', d, z); }
  }

  /** A digit is placed at most one place above the highest bit of m. */
  lemma DigitPlace(m: int, b: nat, c: int)
    requires 0 <= m && 0 <= c <= 1 && BitsOf(m, b, 1) != c && (c == 1 ==> b > 0 && BitsOf(m, b - 1, 1) == 1)
    ensures b > 0 ==> Pow2(b - 1) <= m
  {
    if b > 0 {
      var k: nat := if c == 1 then b - 1 else b;
      assert Pow2(1) == 2;
      if m < Pow2(k) { DivModUnique(m, Pow2(k), 0, m); }
      Pow2Monotone(b - 1, k);
    }
  }

  /** One window: the recoded digit and the carry into the next. */
  method RecodeWindow(s: Scalar, bit: nat, now: nat, w: nat, carry: int) returns (digit: int, carry': int)
    requires 2 <= w <= 31 && 1 <= now <= w && bit + now <= 256 && 0 <= carry <= 1
    requires BitsOf(s.Value(), bit, 1) != carry
    ensures digit == BitsOf(s.Value(), bit, now) + carry - carry' * Pow2(now)
    ensures OddDigit(w, digit)
    ensures 0 <= carry' <= 1 && (carry' == 1 ==> BitsOf(s.Value(), bit + now - 1, 1) == 1)
  {
    hide BitsOf;
    var word := s.GetBitsVar(bit, now);
    word := word + carry;
    WindowDigit(s.Value(), bit, now, w, carry, word);
    carry' := word / Pow2(w - 1) % 2;
    digit := word - carry' * Pow2(w);
  }

  /** A copy of the scalar, negated when its top bit is set, and the sign. */
  method SignAndMagnitude(a: Scalar) returns (s: Scalar, sign: int)
    requires a.Reduced()
    ensures fresh(s) && s.Value() == Abs(TopBitSigned(a.Value())) && sign == Sign(TopBitSigned(a.Value()))
    ensures sign == 1 || sign == -1
  {
    hide BitsOf, Pow2, Limbs4, Abs, Sign, TopBitSigned, Negated;
    s := new Scalar(0, 0, 0, 0);
    s.Copy(a);
    sign := 1;
    var top: nat := 255;
    var high := s.GetBits(top, 1);
    TopBitSplit(a.Value(), top, 1, high);
    if high != 0 {
      s.Negate(s);
      sign := -1;
    }
    SignedParts(a.Value(), high, sign, s.Value());
  }

  /**
   * wnaf := the width-w non-adjacent form of a, lowest digit first. For every a the digits below len spell
   * a's magnitude modulo 2^len, up to a carry out that can only come from a set bit len - 1. What is returned is
   * the number of places up to the highest digit, at most one more than the magnitude has bits.
   */
  method EcmultWnaf(wnaf: array<int>, len: nat, a: Scalar, w: nat) returns (bits: nat, ghost carryOut: int)
    requires len <= wnaf.Length && len <= 256 && 2 <= w <= 31 && a.Reduced()
    modifies wnaf
    ensures bits <= len && (bits > 0 ==> wnaf[bits - 1] != 0)
    ensures forall i :: bits <= i < len ==> wnaf[i] == 0
    ensures bits >= 2 ==> Pow2(bits - 2) <= Abs(TopBitSigned(old(a.Value())))
    ensures IsWnaf(w, wnaf[..len])
    ensures var v := TopBitSigned(old(a.Value()));
            Eval(1, wnaf[..len]) == Partial(Sign(v), Abs(v), len, carryOut)
    ensures 0 <= carryOut <= 1
    ensures carryOut == 1 ==> len > 0 && BitsOf(Abs(TopBitSigned(old(a.Value()))), len - 1, 1) == 1
  {
    hide Recoded, Partial, BitsOf, Eval, IsWnaf, OddDigit, Pow2, Limbs4, Abs, Sign, TopBitSigned, Negated;
    var s, sign := SignAndMagnitude(a);
    var carry, bit := 0, 0;
    bits := 0;
    forall i | 0 <= i < len {
      wnaf[i] := 0;
    }
    ghost var m := s.Value();
    RecodedStart(w, sign, m);
    assert wnaf[..0] == [];
    while bit < len
      invariant bit <= len && bits <= bit
      invariant s.Value() == m
      invariant forall i :: bits <= i < len ==> wnaf[i] == 0
      invariant bits > 0 ==> bit >= bits - 1 + w || bit == len
      invariant bits >= 2 ==> Pow2(bits - 2) <= m
      invariant Recoded(w, sign, m, wnaf[..bit], bits, carry)
    {
      var b := s.GetBits(bit, 1);
      ghost var d := wnaf[..bit];
      if b == carry {
        RecodedSkip(w, sign, m, d, bits, carry, wnaf[..bit + 1]);
        bit := bit + 1;
      } else {
        var now := if w > len - bit then len - bit else w;
        var digit, carry' := RecodeWindow(s, bit, now, w, carry);
        wnaf[bit] := sign * digit;
        RecodedWindow(w, sign, m, d, bits, carry, now, digit, carry', wnaf[..bit + now]);
        CarriedBit(w, sign, m, d, bits, carry);
        DigitPlace(m, bit, carry);
        carry := carry';
        bits := bit + 1;
        bit := bit + now;
      }
    }
    carryOut := carry;
    RecodedEnd(w, sign, m, wnaf[..len], bits, carry);
  }

  lemma CarriedBit(w: nat, sgn: int, m: int, d: seq<int>, used: nat, c: int)
    requires w > 0 && Recoded(w, sgn, m, d, used, c)
    ensures 0 <= c <= 1 && (c == 1 ==> d != [] && BitsOf(m, |d| - 1, 1) == 1)
  {
  }

  lemma RecodedEnd(w: nat, sgn: int, m: int, d: seq<int>, used: nat, c: int)
    requires w > 0 && Recoded(w, sgn, m, d, used, c)
    ensures IsWnaf(w, d) && Eval(1, d) == Partial(sgn, m, |d|, c) && used <= |d| && (used > 0 ==> d[used - 1] != 0)
    ensures 0 <= c <= 1 && (c == 1 ==> d != [] && BitsOf(m, |d| - 1, 1) == 1)
  {
  }

  /** When the magnitude leaves bit len - 1 clear nothing is carried out, and the digits spell the value itself. */
  lemma WnafExact(v: int, len: nat, e: int, carryOut: int)
    requires 0 < len && Abs(v) < Pow2(len - 1)
    requires e == Partial(Sign(v), Abs(v), len, carryOut) && 0 <= carryOut <= 1
    requires carryOut == 1 ==> BitsOf(Abs(v), len - 1, 1) == 1
    ensures carryOut == 0 && e == v
  {
    DivModUnique(Abs(v), Pow2(len - 1), 0, Abs(v));
    DivModUnique(Abs(v), Pow2(len), 0, Abs(v));
    assert 0 % Pow2(1) == 0 by { DivModUnique(0, Pow2(1), 0, 0); }
  }
}

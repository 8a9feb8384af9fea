/** The fixed-pattern recoding: every digit odd, the scalar first skewed to an odd value. */
module WnafConst {
  import opened Words
  import opened Scalars
  import opened Digits

  const WNAF_BITS: nat := 128

  function WnafSize(w: nat): nat
    requires w > 0
  {
    (WNAF_BITS + w - 1) / w
  }

  /** The recoding so far, and what remains above it: together they still spell gs * m. */
  ghost predicate Remaining(w: nat, gs: int, m: int, d: seq<int>, x: int) {
    Eval(w, d) + Pow2(w * |d|) * (gs * x) == gs * m
  }

  /** An all-odd digit string with digits below 2^w in magnitude. */
  ghost predicate AllOdd(w: nat, d: seq<int>) {
    forall i :: 0 <= i < |d| ==> OddBelow(w, d[i])
  }

  predicate OddBelow(w: nat, x: int) {
    x % 2 == 1 && 0 - Pow2(w) < x < Pow2(w)
  }

  lemma SignedOdd(w: nat, x: int, gs: int)
    requires OddBelow(w, x) && (gs == 1 || gs == -1)
    ensures OddBelow(w, x * gs)
  {
  }

  /** Moving one digit from the remainder into the string. */
  lemma EmitDigit(w: nat, gs: int, m: int, d: seq<int>, x: int, digit: int, x': int)
    requires Remaining(w, gs, m, d, x) && x == digit + Pow2(w) * x'
    ensures Remaining(w, gs, m, d + [digit * gs], x')
  {
    hide Pow2, Eval;
    var d', n := d + [digit * gs], w * |d|;
    var p, q := Pow2(n), Pow2(w);
    assert Eval(w, d') == Eval(w, d) + p * (digit * gs) by { EvalSnoc(w, d, digit * gs); }
    assert Pow2(w * |d'|) == p * q by {
      assert w * |d'| == n + w by { MulDistrib(|d|, 1, w); }
      Pow2Add(n, w);
    }
    EmitArith(p, q, gs, x, digit, x');
  }

  lemma EmitArith(p: int, q: int, gs: int, x: int, digit: int, x': int)
    requires x == digit + q * x'
    ensures p * (gs * x) == p * (digit * gs) + p * q * (gs * x')
  {
    assert gs * x == digit * gs + q * (gs * x') by {
      MulDistrib(digit, q * x', gs);
      assert gs * (q * x') == q * (gs * x') by { MulAssoc(gs, q, x'); MulAssoc(q, gs, x'); }
    }
    MulDistrib(digit * gs, q * (gs * x'), p);
    MulAssoc(p, q, gs * x');
  }

  /** Making u odd by borrowing from the digit below keeps their sum, the oddness, and the ranges. */
  lemma Borrow(w: nat, uLast: int, u: int, s: int, even: int)
    requires w > 0 && OddBelow(w, uLast) && uLast > 0 && 0 <= u < Pow2(w) && even == 1 - u % 2
    ensures uLast + Pow2(w) * (s * Pow2(w) + u) == (uLast - even * Pow2(w)) + Pow2(w) * (u + even + Pow2(w) * s)
    ensures OddBelow(w, uLast - even * Pow2(w)) && OddBelow(w, u + even) && u + even > 0
  {
    var p, h := Pow2(w), Pow2(w - 1);
    assert p == 2 * h;
    BorrowArith(p, h, uLast, u, s, even);
  }

  lemma BorrowArith(p: int, h: int, uLast: int, u: int, s: int, even: int)
    requires p == 2 * h && 0 <= u < p && even == 1 - u % 2 && uLast % 2 == 1
    ensures uLast + p * (s * p + u) == (uLast - even * p) + p * (u + even + p * s)
    ensures (uLast - even * p) % 2 == 1 && (u + even) % 2 == 1 && u + even < p
  {
    MulDistrib(s * p, u, p);
    MulDistrib(u + even, p * s, p);
    MulDistrib(u, even, p);
    if even == 1 { assert (uLast - even * p) == uLast - 2 * h; }
  }

  /** The odd value a scalar is skewed to: its signed value plus 1 when even, plus 2 when odd. */
  lemma Skewed(v: int, flip: int, bit: int, notNegOne: int, v2: int)
    requires 0 <= v < N && -W2 < Signed(v) < W2
    requires flip == (if v > N / 2 then 1 else 0) && bit == (if v % 2 == 0 then flip else 1 - flip)
    requires notNegOne == (if Negated(v) == 1 then 0 else 1)
    requires v2 == v + notNegOne * (bit + 1)
    ensures v2 < N
    ensures var m := if flip == 1 then Negated(v2) else v2;
            var gs := (if flip == 1 then -1 else 1) * (notNegOne * 2 - 1);
            gs * m == Signed(v) + (bit + 1) && m % 2 == 1 && 0 < m < 2 * W2
  {
  }

  /** Steps 1 to 3: make the scalar odd and short, remembering its sign and by how much it was moved. */
  method Skew(s: Scalar) returns (globalSign: int, skew: int)
    requires s.Reduced() && -W2 < Signed(s.Value()) < W2
    modifies s
    ensures skew == 1 + Signed(old(s.Value())) % 2
    ensures (globalSign == 1 || globalSign == -1) && globalSign * s.Value() == Signed(old(s.Value())) + skew
    ensures s.Value() % 2 == 1 && 0 < s.Value() < 2 * W2
  {
    hide Limbs4, Signed, Negated;
    ghost var v := s.Value();
    var flip := s.IsHigh();
    var even := s.IsEven();
    var bit := if even then flip else 1 - flip;
    var negS := new Scalar(0, 0, 0, 0);
    negS.Negate(s);
    var one := negS.IsOne();
    var notNegOne := if one then 0 else 1;
    Skewed(v, flip, bit, notNegOne, v + notNegOne * (bit + 1));
    Pow2Small(bit);
    s.CaddBit(bit, notNegOne);
    globalSign := s.CondNegate(flip);
    globalSign := globalSign * (notNegOne * 2 - 1);
    skew := Pow2(bit);
  }

  lemma Pow2Small(bit: nat)
    requires bit <= 1
    ensures Pow2(bit) == bit + 1
  {
    assert Pow2(0) == 1;
  }

  lemma StartRemaining(w: nat, gs: int, m: int, s: int, u: int)
    requires w > 0 && m == s * Pow2(w) + u && 0 <= u < Pow2(w) && m % 2 == 1
    ensures Remaining(w, gs, m, [], u + Pow2(w) * s)
    ensures OddBelow(w, u) && u > 0
    ensures s == Upper(m, w, 1)
  {
    var p, h := Pow2(w), Pow2(w - 1);
    assert p == 2 * h && Pow2(w * 0) == 1;
    assert Eval(w, []) == 0;
    assert w * 1 == w;
    hide Pow2, Eval;
    StartArith(p, h, m, s, u);
    DivModUnique(m, p, s, u);
  }

  lemma StartArith(p: int, h: int, m: int, s: int, u: int)
    requires p == 2 * h && m == s * p + u && m % 2 == 1
    ensures u % 2 == 1 && u + p * s == m
  {
    assert s * p == 2 * (s * h) by { MulAssoc(2, s, h); }
  }

  /** What n shifts by w leave of m. */
  function Upper(m: int, w: nat, n: nat): int {
    m / Pow2(w * n)
  }

  lemma ShiftAgain(m: int, w: nat, n: nat, s: int, s': int, u: int)
    requires s == Upper(m, w, n) && s == s' * Pow2(w) + u && 0 <= u < Pow2(w)
    ensures s' == Upper(m, w, n + 1)
  {
    assert w * (n + 1) == w * n + w by { MulDistrib(n, 1, w); }
    Pow2Add(w * n, w);
    SplitProduct(m, Pow2(w * n), Pow2(w));
    DivModUnique(s, Pow2(w), s', u);
  }

  /** Once all of WNAF_BITS is consumed nothing is left, and exactly WnafSize words were written. */
  lemma AllShifted(m: int, w: nat, word: nat)
    requires w > 0 && 0 <= m < 2 * W2 && word * w >= WNAF_BITS
    ensures Upper(m, w, word + 1) == 0
  {
    assert w * (word + 1) == word * w + w by { MulDistrib(word, 1, w); }
    var n: nat := 128;
    Pow2At(n);
    Pow2Monotone(n + 1, w * (word + 1));
    DivModUnique(m, Pow2(w * (word + 1)), 0, m);
  }

  lemma WordBelowSize(w: nat, word: nat)
    requires w > 0
    ensures word * w < WNAF_BITS <==> word < WnafSize(w)
  {
    var q := WnafSize(w);
    DivModOf(WNAF_BITS + w - 1, w);
    if word < q {
      MulLe(word + 1, q, w);
      MulDistrib(word, 1, w);
    } else {
      MulLe(q, word, w);
    }
  }

  /**
   * Fills wnaf with odd digits below 2^w that spell the signed scalar plus the skew returned, which the caller
   * subtracts again. The scalar is the callee's own copy.
   */
  method WnafConst(wnaf: array<int>, s: Scalar, w: nat) returns (skew: int)
    requires 0 < w < 16 && wnaf.Length == 1 + WnafSize(w)
    requires s.Reduced() && -W2 < Signed(s.Value()) < W2
    modifies wnaf, s
    ensures skew == 1 + Signed(old(s.Value())) % 2
    ensures AllOdd(w, wnaf[..])
    ensures Eval(w, wnaf[..]) == Signed(old(s.Value())) + skew
  {
    hide Limbs4, Signed, WnafSize, Remaining, OddBelow, Upper, AllOdd, Eval, Pow2;
    AllOddSnoc(w, [], 1);
    var globalSign;
    globalSign, skew := Skew(s);
    ghost var m := s.Value();
    var uLast := s.ShrInt(w);
    StartRemaining(w, globalSign, m, s.Value(), uLast);
    var u := uLast;
    var word: nat := 0;
    assert wnaf[..0] == [];
    WordBelowSize(w, 0);
    while word * w < WNAF_BITS
      invariant word <= WnafSize(w) && u == uLast
      invariant OddBelow(w, uLast) && uLast > 0
      invariant AllOdd(w, wnaf[..word])
      invariant Remaining(w, globalSign, m, wnaf[..word], uLast + Pow2(w) * s.Value())
      invariant s.Value() == Upper(m, w, word + 1)
      decreases WnafSize(w) - word
    {
      WordBelowSize(w, word);
      ghost var before, s0 := wnaf[..word], s.Value();
      u := s.ShrInt(w);
      ShiftAgain(m, w, word + 1, s0, s.Value(), u);
      var even := if u % 2 == 0 then 1 else 0;
      var sign := if uLast > 0 then 1 else -1;
      Borrow(w, uLast, u, s.Value(), even);
      ghost var x := uLast + Pow2(w) * s0;
      u := u + sign * even;
      uLast := uLast - sign * even * Pow2(w);
      EmitDigit(w, globalSign, m, before, x, uLast, u + Pow2(w) * s.Value());
      SignedOdd(w, uLast, globalSign);
      wnaf[word] := uLast * globalSign;
      assert wnaf[..word + 1] == before + [uLast * globalSign];
      AllOddSnoc(w, before, uLast * globalSign);
      word := word + 1;
      uLast := u;
    }
    WordBelowSize(w, word);
    AllShifted(m, w, word);
    ghost var before := wnaf[..word];
    wnaf[word] := u * globalSign;
    SignedOdd(w, u, globalSign);
    assert wnaf[..] == before + [u * globalSign];
    AllOddSnoc(w, before, u * globalSign);
    LastDigit(w, globalSign, m, before, u);
  }

  lemma AllOddSnoc(w: nat, d: seq<int>, x: int)
    ensures AllOdd(w, [])
    ensures AllOdd(w, d) && OddBelow(w, x) ==> AllOdd(w, d + [x])
  {
    hide OddBelow;
  }

  lemma LastDigit(w: nat, gs: int, m: int, d: seq<int>, u: int)
    requires Remaining(w, gs, m, d, u)
    ensures Eval(w, d + [u * gs]) == gs * m
  {
    EvalSnoc(w, d, u * gs);
  }
}

/** Powers modulo a prime, and the exponents that addition chains of squarings and products reach. */
module Powers {
  import opened Words

  function Power(x: int, e: nat): int {
    if e == 0 then 1 else x * Power(x, e - 1)
  }

  /** x^e modulo m. */
  function PowMod(m: int, x: int, e: nat): int
    requires m > 0
  {
    Power(x, e) % m
  }

  lemma {:induction false} PowerAdd(x: int, e: nat, f: nat)
    ensures Power(x, e + f) == Power(x, e) * Power(x, f)
  {
    if e != 0 {
      PowerAdd(x, e - 1, f);
      assert e - 1 + f == e + f - 1;
      MulAssoc(x, Power(x, e - 1), Power(x, f));
    }
  }

  /** A product may be reduced factor by factor. */
  lemma MulMod(m: int, a: int, b: int)
    requires m > 0
    ensures ((a % m) * (b % m)) % m == (a * b) % m
  {
    var i, j := a / m, b / m;
    DivModOf(a, m);
    DivModOf(b, m);
    MulModArith(m, a, b, i, j, a % m, b % m);
    AddMultiple((a % m) * (b % m), i * b + (a % m) * j, m);
  }

  lemma MulModArith(m: int, a: int, b: int, i: int, j: int, x: int, y: int)
    requires a == i * m + x && b == j * m + y
    ensures a * b == x * y + (i * b + x * j) * m
  {
    assert a * b == (i * m) * b + x * b by { MulDistrib(i * m, x, b); }
    assert (i * m) * b == (i * b) * m by { MulAssoc(i, m, b); MulAssoc(i, b, m); }
    assert x * b == (x * j) * m + x * y by { MulDistrib(j * m, y, x); MulAssoc(x, j, m); }
    MulDistrib(i * b, x * j, m);
  }

  /** Multiplying powers adds exponents. */
  lemma PowModMul(m: int, x: int, e: nat, f: nat, a: int, b: int)
    requires m > 0 && a == PowMod(m, x, e) && b == PowMod(m, x, f)
    ensures (a * b) % m == PowMod(m, x, e + f)
  {
    PowerAdd(x, e, f);
    MulMod(m, Power(x, e), Power(x, f));
  }

  lemma PowModOne(m: int, x: int)
    requires m > 0
    ensures PowMod(m, x, 1) == x % m
  {
    assert Power(x, 1) == x * Power(x, 0);
  }

  /** If x^(e + 1) is 1 then x^e inverts x. */
  lemma PowModInverts(m: int, x: int, e: nat)
    requires m > 1 && PowMod(m, x, e + 1) == 1
    ensures (x * PowMod(m, x, e)) % m == 1
  {
    var p := PowMod(m, x, e);
    PowModOne(m, x);
    PowModMul(m, x, 1, e, x % m, p);
    assert p % m == p by { DivModOf(Power(x, e), m); DivModUnique(p, m, 0, p); }
    hide PowMod;
    MulMod(m, x, p);
  }

  /** Congruent bases have congruent powers. */
  lemma {:induction false} PowModCongruent(m: int, x: int, y: int, e: nat)
    requires m > 0 && x % m == y % m
    ensures PowMod(m, x, e) == PowMod(m, y, e)
  {
    if e > 0 {
      PowModCongruent(m, x, y, e - 1);
      MulMod(m, x, Power(x, e - 1));
      MulMod(m, y, Power(y, e - 1));
    }
  }

  lemma {:induction false} PowerOfProduct(x: int, y: int, e: nat)
    ensures Power(x * y, e) == Power(x, e) * Power(y, e)
  {
    if e > 0 {
      PowerOfProduct(x, y, e - 1);
      var a, b := Power(x, e - 1), Power(y, e - 1);
      assert (x * y) * (a * b) == (x * a) * (y * b) by {
        MulAssoc(x, y, a * b);
        MulAssoc(y, a, b);
        MulAssoc(a, y, b);
        MulAssoc(x, a, y * b);
      }
    }
  }

  lemma PowModOfProduct(m: int, x: int, y: int, e: nat)
    requires m > 0
    ensures PowMod(m, x * y, e) == (PowMod(m, x, e) * PowMod(m, y, e)) % m
  {
    PowerOfProduct(x, y, e);
    MulMod(m, Power(x, e), Power(y, e));
  }

  /** An inverse is unique modulo m. */
  lemma InverseUnique(m: int, x: int, r: int, s: int)
    requires m > 1 && (x * r) % m == 1 && (x * s) % m == 1
    ensures r % m == s % m
  {
    DivModUnique(1, m, 0, 1);
    MulMod(m, x * r, s);
    MulMod(m, x * s, r);
    MulMod(m, 1, s);
    MulMod(m, 1, r);
    assert (x * r) * s == (x * s) * r by { MulAssoc(x, r, s); MulAssoc(x, s, r); }
  }

  /** e followed by k zeros in binary. */
  function Up(e: nat, k: nat): nat {
    MulLe(0, e, Pow2(k));
    e * Pow2(k)
  }

  lemma UpStep(e: nat, k: nat)
    ensures Up(e, k) + Up(e, k) == Up(e, k + 1)
    ensures Up(e, 0) == e
  {
    MulAssoc(e, 2, Pow2(k));
    assert Pow2(0) == 1;
  }

  /** The number of n ones in binary. */
  function Ones(n: nat): nat { Pow2(n) - 1 }

  /** Shifting n ones up by k and adding k ones gives n + k ones. */
  lemma OnesJoin(n: nat, k: nat)
    ensures Ones(n) * Pow2(k) + Ones(k) == Ones(n + k)
  {
    Pow2Add(n, k);
    MulDistrib(Pow2(n), 1, Pow2(k));
  }
}

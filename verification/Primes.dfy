/** Divisors, and inverses modulo a prime. */
module Primes {
  import opened Words

  predicate Divides(d: int, m: int)
    requires d > 0
  {
    m % d == 0
  }

  ghost predicate Prime(m: int) {
    m > 1 && forall d :: 1 < d < m ==> !Divides(d, m)
  }

  /** A common divisor of two numbers that is a combination of them. */
  lemma Bezout(a: nat, b: nat) returns (x: int, y: int, g: nat, i: nat, j: nat)
    requires a > 0 || b > 0
    ensures x * a + y * b == g > 0 && a == i * g && b == j * g
    decreases b
  {
    if b == 0 {
      x, y, g, i, j := 1, 0, a, 1, 0;
    } else {
      var q := a / b;
      var r := a % b;
      DivModOf(a, b);
      var x', y', i', j';
      x', y', g, i', j' := Bezout(b, r);
      BezoutStep(a, b, q, r, x', y', g, i', j');
      x, y, i, j := y', x' - q * y', q * i' + j', i';
    }
  }

  lemma BezoutStep(a: nat, b: nat, q: nat, r: nat, x: int, y: int, g: nat, i: nat, j: nat)
    requires a == q * b + r && x * b + y * r == g && b == i * g && r == j * g
    ensures y * a + (x - q * y) * b == g && a == (q * i + j) * g && q * i >= 0
  {
    assert y * a == y * (q * b) + y * r by { MulDistrib(q * b, r, y); }
    assert (x - q * y) * b == x * b - q * y * b by { MulDistrib(x, q * y, b); }
    assert y * (q * b) == q * y * b by { MulAssoc(y, q, b); }
    assert (q * i + j) * g == q * i * g + j * g by { MulDistrib(q * i, j, g); }
    assert q * i * g == q * b by { MulAssoc(q, i, g); }
    MulLe(0, q, i);
  }

  /** Modulo a prime every number that is not a multiple of it has an inverse. */
  lemma InverseModuloPrime(p: nat, m: nat) returns (x: int, y: int)
    requires 0 < p < m && Prime(m)
    ensures x * p + y * m == 1
  {
    var g, i, j;
    x, y, g, i, j := Bezout(p, m);
    if g >= m {
      if i > 0 { MulLe(1, i, g); }
      assert false;
    }
    if g > 1 {
      DivModUnique(m, g, j, 0);
      assert Divides(g, m);
    }
  }
}

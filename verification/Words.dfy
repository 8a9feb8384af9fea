/** Machine words, powers of two and the division facts the limb code leans on. */
module Words {
  const W: int := 0x1_0000_0000_0000_0000                                     // 2^64
  const W2: int := 0x1_0000_0000_0000_0000_0000_0000_0000_0000                // 2^128
  const W3: int := 0x1_0000_0000_0000_0000_0000_0000_0000_0000_0000_0000_0000_0000
  const W4: int := 0x1_0000_0000_0000_0000_0000_0000_0000_0000_0000_0000_0000_0000_0000_0000_0000_0000

  type u64 = x: int | 0 <= x < W
  type u32 = x: int | 0 <= x < 0x1_0000_0000

  type u128 = x: int | 0 <= x < W2

  /** The idiom `lo = t & (2^64 - 1); t >>= 64` on a 128-bit accumulator. */
  method TakeLimb(t: u128) returns (lo: u64, hi: u64)
    ensures t == lo + 0x1_0000_0000_0000_0000 * hi
  {
    lo, hi := t % W, t / W;
  }

  function Abs(x: int): int { if x < 0 then 0 - x else x }

  function Pow2(n: nat): (p: nat)
    ensures p >= 1
  {
    if n == 0 then 1 else 2 * Pow2(n - 1)
  }

  lemma {:induction false} Pow2Add(m: nat, n: nat)
    ensures Pow2(m + n) == Pow2(m) * Pow2(n)
  {
    if n != 0 {
      Pow2Add(m, n - 1);
      assert m + n - 1 == m + (n - 1);
      MulAssoc(Pow2(m), 2, Pow2(n - 1));
    }
  }

  lemma Pow2Monotone(m: nat, n: nat)
    requires m <= n
    ensures Pow2(m) <= Pow2(n)
  {
    Pow2Add(m, n - m);
    MulLe(1, Pow2(n - m), Pow2(m));
  }

  /** The bits of x below bit b. */
  function LowBits(x: int, b: nat): int {
    x % Pow2(b)
  }

  /** n bits of x from bit b. */
  function BitsOf(x: int, b: nat, n: nat): int {
    x / Pow2(b) % Pow2(n)
  }

  lemma Pow2Below(m: nat, n: nat)
    requires m < n
    ensures 2 * Pow2(m) <= Pow2(n)
  {
    Pow2Monotone(m + 1, n);
  }

  lemma Pow2Sum(m: nat, n: nat, sum: nat, pm: nat, pn: nat)
    requires sum == m + n && Pow2(m) == pm && Pow2(n) == pn
    ensures Pow2(sum) == pm * pn
  {
    Pow2Add(m, n);
  }

  lemma Pow2Chain(n: nat)
    requires n == 8
    ensures Pow2(8 * n) == W && Pow2(16 * n) == W2 && Pow2(24 * n) == W3 && Pow2(32 * n) == W4
    ensures Pow2(34 * n) == W4 * 0x1_0000
  {
    assert Pow2(n) == 0x100;
    Pow2Sum(n, n, 2 * n, 0x100, 0x100);
    Pow2Sum(2 * n, 2 * n, 4 * n, 0x1_0000, 0x1_0000);
    Pow2Sum(4 * n, 4 * n, 8 * n, 0x1_0000_0000, 0x1_0000_0000);
    Pow2Sum(8 * n, 8 * n, 16 * n, W, W);
    Pow2Sum(16 * n, 8 * n, 24 * n, W2, W);
    Pow2Sum(16 * n, 16 * n, 32 * n, W2, W2);
    Pow2Sum(32 * n, 2 * n, 34 * n, W4, 0x1_0000);
  }

  /** Pow2 at the widths that occur, without unrolling it there. */
  lemma Pow2At(k: nat)
    ensures k == 0 ==> Pow2(k) == 1
    ensures k == 1 ==> Pow2(k) == 2
    ensures k == 4 ==> Pow2(k) == 16
    ensures k == 64 ==> Pow2(k) == W
    ensures k == 128 ==> Pow2(k) == W2
    ensures k == 192 ==> Pow2(k) == W3
    ensures k == 255 ==> 2 * Pow2(k) == W4
    ensures k == 256 ==> Pow2(k) == W4
    ensures k == 272 ==> Pow2(k) == W4 * 0x1_0000
  {
    if k <= 4 {
    } else {
      var n: nat := 8;
      Pow2Chain(n);
      if k == 255 {
        assert Pow2(32 * n) == 2 * Pow2(32 * n - 1);
      }
    }
  }

  // Products of variables: each nonlinear step the proofs take is one of these.
  lemma MulAssoc(x: int, y: int, z: int)
    ensures x * (y * z) == (x * y) * z
  {
  }

  lemma MulLe(x: int, y: int, k: int)
    requires x <= y && 0 <= k
    ensures k * x <= k * y && x * k <= y * k
  {
  }

  lemma MulDistrib(x: int, y: int, k: int)
    ensures (x + y) * k == x * k + y * k && k * (x + y) == k * x + k * y
    ensures (x - y) * k == x * k - y * k && k * (x - y) == k * x - k * y
  {
  }

  /** Quotient and remainder are determined by any representation q*m + r with 0 <= r < m. */
  lemma DivModUnique(x: int, m: int, q: int, r: int)
    requires 0 < m && 0 <= r < m && x == q * m + r
    ensures x / m == q && x % m == r
  {
    var q' := x / m;
    var d := q - q';
    assert x == m * q' + x % m;
    assert d * m == x % m - r by { MulDistrib(q, q', m); }
    if d >= 1 { MulLe(1, d, m); }
    if d <= -1 { MulLe(d, -1, m); }
  }

  lemma DivModOf(x: int, m: int)
    requires 0 < m
    ensures x == (x / m) * m + x % m && 0 <= x % m < m
  {
  }

  /** (x + k*m) mod m and div m. */
  lemma AddMultiple(x: int, k: int, m: int)
    requires 0 < m
    ensures (x + k * m) % m == x % m && (x + k * m) / m == x / m + k
  {
    DivModOf(x, m);
    MulDistrib(x / m, k, m);
    DivModUnique(x + k * m, m, x / m + k, x % m);
  }

  /** Splitting at a*b is splitting at a, then at b. */
  lemma SplitProduct(x: int, a: int, b: int)
    requires 0 < a && 0 < b
    ensures a * b > 0
    ensures x / (a * b) == x / a / b
    ensures x % (a * b) == (x / a % b) * a + x % a
    ensures (x % (a * b)) % a == x % a
    ensures (x % (a * b)) / a == x / a % b
  {
    MulLe(1, b, a);
    var q, r := x / a / b, x / a % b;
    DivModOf(x, a);
    DivModOf(x / a, b);
    assert x == q * (a * b) + (r * a + x % a) by {
      MulDistrib(q * b, r, a);
      assert q * b * a == q * (a * b) by { MulAssoc(q, b, a); }
    }
    assert 0 <= r * a + x % a < a * b by {
      MulLe(r, b - 1, a);
      MulDistrib(b, 1, a);
      MulLe(0, r, a);
    }
    DivModUnique(x, a * b, q, r * a + x % a);
    DivModUnique(r * a + x % a, a, r, x % a);
  }

  /** Dividing a + p*q*h by p leaves a/p + q*h, and modulo a divisor r of q the h is gone. */
  lemma DropHigh(a: int, h: int, w: int, p: int, q: int, r: int, t: int)
    requires 0 < p && 0 < r && w == p * q && q == r * t
    ensures (a + w * h) / p == a / p + q * h
    ensures (a + w * h) / p % r == a / p % r
  {
    assert w * h == (q * h) * p by { MulAssoc(p, q, h); }
    AddMultiple(a, q * h, p);
    assert q * h == (t * h) * r by { MulAssoc(r, t, h); }
    AddMultiple(a / p, t * h, r);
  }

  lemma Shifted(x: int, lo: int, m: int, y: int, p: int)
    requires 0 <= lo < m && x == y * m + lo && 0 < p
    ensures m * p > 0 && x / (m * p) == y / p
  {
    DivModUnique(x, m, y, lo);
    SplitProduct(x, m, p);
  }

  /** c bits of x from position s of the word `limb` of weight m, when they do not leave that word. */
  lemma BitsInWord(x: int, lo: int, m: int, y: int, limb: u64, hi: int, s: nat, c: nat)
    requires 0 <= lo < m && x == y * m + lo && y == limb + W * hi && s + c <= 64
    ensures m * Pow2(s) > 0
    ensures x / (m * Pow2(s)) % Pow2(c) == limb / Pow2(s) % Pow2(c)
  {
    var n: nat := 64 - s;
    assert Pow2(s) * Pow2(n) == W by { Pow2Add(s, n); Pow2At(s + n); }
    assert Pow2(n) == Pow2(c) * Pow2(n - c) by { Pow2Sum(c, n - c, n, Pow2(c), Pow2(n - c)); }
    hide Pow2;
    Shifted(x, lo, m, y, Pow2(s));
    DropHigh(limb, hi, W, Pow2(s), Pow2(n), Pow2(c), Pow2(n - c));
  }

  /** c bits of x from position s of `limb`, spilling into the next word. */
  lemma BitsAcrossWords(x: int, lo: int, m: int, y: int, limb: u64, next: u64, hi: int, s: nat, c: nat)
    requires 0 <= lo < m && x == y * m + lo && y == limb + W * (next + W * hi) && s <= 64 && c <= 64
    ensures m * Pow2(s) > 0
    ensures x / (m * Pow2(s)) % Pow2(c) == (limb / Pow2(s) + next * Pow2(64 - s) % W) % Pow2(c)
  {
    var n: nat := 64 - s;
    Pow2Add(s, n);
    Pow2At(s + n);
    Pow2Add(c, 64 - c);
    Pow2At(c + (64 - c));
    Shifted(x, lo, m, y, Pow2(s));
    DropHigh(limb, next + W * hi, W, Pow2(s), Pow2(n), 1, Pow2(n));
    WrapHigh(limb / Pow2(s), next, hi, Pow2(n), Pow2(c), Pow2(64 - c));
  }

  lemma WrapHigh(a: int, next: int, hi: int, q: int, r: int, t: int)
    requires 0 < r && W == r * t
    ensures (a + q * (next + W * hi)) % r == (a + next * q % W) % r
  {
    var e := next * q;
    DivModOf(e, W);
    var k := e / W + q * hi;
    assert q * (next + W * hi) == e + W * (q * hi) by {
      MulDistrib(next, W * hi, q);
      assert q * (W * hi) == W * (q * hi) by { MulAssoc(q, W, hi); MulAssoc(W, q, hi); }
    }
    assert q * (next + W * hi) == e % W + W * k;
    assert W * k == (t * k) * r by { MulAssoc(r, t, k); }
    AddMultiple(a + e % W, t * k, r);
  }

  /** Adding the highest dropped bit rounds the quotient to the nearest integer, ties upward. */
  lemma RoundedQuotient(x: int, h: int)
    requires 0 < h
    ensures x / (2 * h) + x / h % 2 == (x + h) / (2 * h)
  {
    var y := x / h;
    DivModOf(x, h);
    assert x / (2 * h) == y / 2 by { SplitProduct(x, h, 2); }
    assert (x + h) / (2 * h) == (y + 1) / 2 by {
      AddMultiple(x, 1, h);
      SplitProduct(x + h, h, 2);
    }
  }
}

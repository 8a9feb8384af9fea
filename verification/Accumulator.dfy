/** The three-word carry accumulator (c0, c1, c2) that the scalar product and its reduction are written with. */
module Accumulator {
  import opened Words

  /** (2^64 - 1)^2. */
  const MAX_PRODUCT: int := 0xFFFF_FFFF_FFFF_FFFE_0000_0000_0000_0001

  function Acc(c0: int, c1: int, c2: int): int {
    c0 + 0x1_0000_0000_0000_0000 * c1 + 0x1_0000_0000_0000_0000_0000_0000_0000_0000 * c2
  }

  /** A word product, named so that the column sums can be added up without multiplying it out. */
  function Prod(a: int, b: int): int { a * b }

  lemma ProductFits(a: u64, b: u64)
    ensures 0 <= Prod(a, b) <= MAX_PRODUCT
  {
    var m: int := 0xFFFF_FFFF_FFFF_FFFF;
    MulLe(a, m, b);
    MulLe(b, m, m);
    MulLe(0, a, b);
  }

  /** Wrapping 64-bit addition, and the carry the C recovers by comparing the sum with an addend. */
  method WrapAdd(x: u64, y: u64) returns (s: u64, carry: int)
    ensures s + 0x1_0000_0000_0000_0000 * carry == x + y && 0 <= carry <= 1
  {
    s := (x + y) % W;
    carry := if s < y then 1 else 0;
  }

  /** muladd: adds a*b; c2 must have room for one carry. */
  method MulAdd(c0: u64, c1: u64, c2: u32, a: u64, b: u64) returns (r0: u64, r1: u64, r2: u32)
    requires c2 + 1 < 0x1_0000_0000
    ensures Acc(r0, r1, r2) == Acc(c0, c1, c2) + Prod(a, b)
    ensures 0 <= Prod(a, b) <= MAX_PRODUCT
    ensures c2 <= r2 <= c2 + 1
  {
    ProductFits(a, b);
    hide Prod;
    var tl, th := TakeLimb(Prod(a, b));
    var carry;
    r0, carry := WrapAdd(c0, tl);
    th := th + carry;
    r1, carry := WrapAdd(c1, th);
    r2 := c2 + carry;
  }

  /** muladd_fast: adds a*b to the two low words; c1 must not overflow. */
  method MulAddFast(c0: u64, c1: u64, a: u64, b: u64) returns (r0: u64, r1: u64)
    requires Acc(c0, c1, 0) + Prod(a, b) < W2
    ensures Acc(r0, r1, 0) == Acc(c0, c1, 0) + Prod(a, b)
    ensures 0 <= Prod(a, b) <= MAX_PRODUCT
  {
    ProductFits(a, b);
    hide Prod;
    var tl, th := TakeLimb(Prod(a, b));
    var carry;
    r0, carry := WrapAdd(c0, tl);
    th := th + carry;
    r1, carry := WrapAdd(c1, th);
  }

  /** muladd2: adds 2*a*b; c2 must have room for two carries. */
  method MulAdd2(c0: u64, c1: u64, c2: u32, a: u64, b: u64) returns (r0: u64, r1: u64, r2: u32)
    requires c2 + 2 < 0x1_0000_0000
    ensures Acc(r0, r1, r2) == Acc(c0, c1, c2) + 2 * Prod(a, b)
    ensures 0 <= Prod(a, b) <= MAX_PRODUCT
    ensures c2 <= r2 <= c2 + 2
  {
    ProductFits(a, b);
    hide Prod;
    var tl, th := TakeLimb(Prod(a, b));
    assert th <= W - 2;
    var th2, overTh := WrapAdd(th, th);
    r2 := c2 + overTh;
    var tl2, overTl := WrapAdd(tl, tl);
    assert th2 <= W - 2;
    th2 := th2 + overTl;
    var over0, wrapped, over1;
    r0, over0 := WrapAdd(c0, tl2);
    th2, wrapped := WrapAdd(th2, over0);
    assert wrapped == 1 <==> over0 == 1 && th2 == 0;
    r2 := r2 + if over0 == 1 && th2 == 0 then 1 else 0;
    r1, over1 := WrapAdd(c1, th2);
    r2 := r2 + over1;
  }

  /** sumadd: adds a single word. */
  method SumAdd(c0: u64, c1: u64, c2: u32, a: u64) returns (r0: u64, r1: u64, r2: u32)
    requires c2 + 1 < 0x1_0000_0000
    ensures Acc(r0, r1, r2) == Acc(c0, c1, c2) + a
    ensures c2 <= r2 <= c2 + 1
  {
    var over;
    r0, over := WrapAdd(c0, a);
    r1, over := WrapAdd(c1, over);
    r2 := c2 + over;
  }

  /** sumadd_fast: adds a single word to the two low words; c1 must not overflow. */
  method SumAddFast(c0: u64, c1: u64, a: u64) returns (r0: u64, r1: u64)
    requires Acc(c0, c1, 0) + a < W2
    ensures Acc(r0, r1, 0) == Acc(c0, c1, 0) + a
  {
    var over;
    r0, over := WrapAdd(c0, a);
    r1 := c1 + over;
  }
}

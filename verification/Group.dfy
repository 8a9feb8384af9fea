/**
 * The curve group, up to isomorphism: a cyclic group of order N written additively as the integers
 * modulo N, with the generator G at 1 and the point at infinity at 0.
 */
module Group {
  import opened Words
  import opened Scalars
  import opened Primes

  type Point = x: int | 0 <= x < N

  const INFINITY: Point := 0
  const G: Point := 1

  /** The eigenvalue of the endomorphism (x, y) -> (beta x, y). */
  const LAMBDA: int := 0x5363AD4C_C05C30E0_A5261C02_8812645A_122E22EA_20816678_DF02967C_1B23BD72

  /** k times the generator, for any integer k. */
  function Times(k: int): Point {
    DivModOf(k, N);
    k % N
  }

  function Double(p: Point): Point { Times(2 * p) }

  function Add(p: Point, q: Point): Point { Times(p + q) }

  /** Doubling and mixed addition in the forms the source allows only on points that are not infinity. */
  function DoubleNonzero(p: Point): Point
    requires p != INFINITY
  {
    Double(p)
  }

  function AddGe(p: Point, q: Point): Point
    requires q != INFINITY
  {
    Add(p, q)
  }

  function Neg(p: Point): Point { Times(0 - p) }

  function MulLambda(p: Point): Point { Times(LAMBDA * p) }

  /** k times a point. */
  function Multiple(k: int, p: Point): Point { Times(k * p) }

  /** Integers that differ by a multiple of N name the same point. */
  lemma TimesCongruent(x: int, y: int, k: int)
    requires x == y + k * N
    ensures Times(x) == Times(y)
  {
    AddMultiple(y, k, N);
  }

  lemma TimesSplit(x: int) returns (k: int)
    ensures x == Times(x) + k * N
  {
    k := x / N;
    DivModOf(x, N);
  }

  lemma TimesOfPoint(p: Point)
    ensures Times(p) == p
  {
    DivModUnique(p, N, 0, p);
  }

  lemma AddTimes(x: int, y: int)
    ensures Add(Times(x), Times(y)) == Times(x + y)
  {
    var i := TimesSplit(x);
    var j := TimesSplit(y);
    TimesCongruent(x + y, Times(x) + Times(y), i + j);
  }

  lemma NegTimes(x: int)
    ensures Neg(Times(x)) == Times(0 - x)
  {
    var i := TimesSplit(x);
    TimesCongruent(0 - x, 0 - Times(x), 0 - i);
  }

  lemma MultipleTimes(k: int, x: int)
    ensures Times(k * Times(x)) == Times(k * x)
    ensures Multiple(k, Times(x)) == Times(k * x)
  {
    var i := TimesSplit(x);
    MulDistrib(Times(x), i * N, k);
    MulAssoc(k, i, N);
    TimesCongruent(k * x, k * Times(x), k * i);
  }

  /**
   * The source asks that a point not be infinity. For a prime order such a point generates the whole group;
   * that is the form in which the model asks for it.
   */
  ghost predicate FullOrder(p: Point) {
    exists v: int :: Times(v * p) == 1
  }

  /** If the group order is prime, every point but infinity generates the group. */
  lemma FullOrderWhenPrime(p: Point, order: nat)
    requires order == N && Prime(order) && p != INFINITY
    ensures FullOrder(p)
  {
    var v, y := InverseModuloPrime(p, order);
    TimesCongruent(v * p, 1, 0 - y);
    TimesOfPoint(1);
    hide Times;
    assert Times(v * p) == 1;
  }

  lemma DoubleTimes(e: int)
    ensures Double(Times(e)) == Times(2 * e)
  {
    MultipleTimes(2, e);
  }

  lemma MultipleOfFullOrder(p: Point, k: int)
    requires FullOrder(p)
    ensures Times(k * p) == INFINITY <==> Times(k) == INFINITY
  {
    var v: int :| Times(v * p) == 1;
    hide Times;
    DivModUnique(0, N, 0, 0);
    assert Times(0) == INFINITY by { TimesOfPoint(INFINITY); }
    if Times(k * p) == INFINITY {
      assert Times(v * (k * p)) == INFINITY by { MultipleTimes(v, k * p); }
      assert Times(k * (v * p)) == Times(k) by { MultipleTimes(k, v * p); }
      assert k * (v * p) == v * (k * p) by { MulAssoc(k, v, p); MulAssoc(v, k, p); }
    }
    if Times(k) == INFINITY {
      MultipleTimes(p, k);
    }
  }
}

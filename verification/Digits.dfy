/** Signed digit strings, least significant digit first. */
module Digits {
  import opened Words

  /** The value of a digit string in base 2^w. */
  function Eval(w: nat, d: seq<int>): int {
    if d == [] then 0 else d[0] + Pow2(w) * Eval(w, d[1..])
  }

  lemma {:induction false} EvalConcat(w: nat, s: seq<int>, t: seq<int>)
    ensures Eval(w, s + t) == Eval(w, s) + Pow2(w * |s|) * Eval(w, t)
  {
    if s == [] {
      assert s + t == t && Pow2(w * |s|) == 1;
    } else {
      var p, q := Pow2(w), Pow2(w * |s[1..]|);
      assert (s + t)[1..] == s[1..] + t;
      EvalConcat(w, s[1..], t);
      Pow2Sum(w, w * |s[1..]|, w * |s|, p, q);
      MulDistrib(Eval(w, s[1..]), q * Eval(w, t), p);
      MulAssoc(p, q, Eval(w, t));
    }
  }

  lemma EvalSnoc(w: nat, s: seq<int>, x: int)
    ensures Eval(w, s + [x]) == Eval(w, s) + Pow2(w * |s|) * x
  {
    EvalConcat(w, s, [x]);
    assert Eval(w, [x]) == x + Pow2(w) * Eval(w, []);
  }

  lemma {:induction false} EvalZeros(w: nat, z: seq<int>)
    requires forall i :: 0 <= i < |z| ==> z[i] == 0
    ensures Eval(w, z) == 0
  {
    if z != [] {
      EvalZeros(w, z[1..]);
    }
  }

  /** One digit above s, followed by zeros. */
  lemma EvalAppend(w: nat, s: seq<int>, n: nat, x: int, z: seq<int>)
    requires n == w * |s|
    requires forall i :: 0 <= i < |z| ==> z[i] == 0
    ensures Eval(w, s + [x] + z) == Eval(w, s) + Pow2(n) * x
  {
    EvalSnoc(w, s, x);
    EvalZeros(w, z);
    EvalConcat(w, s + [x], z);
  }

  /** Digit i of a string, zero beyond its end. */
  function DigitAt(d: seq<int>, i: nat): int {
    if i < |d| then d[i] else 0
  }

  /** The value of the digits from i upwards. */
  function Tail(w: nat, d: seq<int>, i: nat): int {
    if i < |d| then Eval(w, d[i..]) else 0
  }

  lemma TailStep(w: nat, d: seq<int>, i: nat)
    ensures Tail(w, d, i) == DigitAt(d, i) + Pow2(w) * Tail(w, d, i + 1)
  {
    if i < |d| {
      assert d[i..][1..] == d[i + 1..];
    }
  }

  lemma TailZero(w: nat, d: seq<int>, i: nat)
    requires forall k :: i <= k < |d| ==> d[k] == 0
    ensures Tail(w, d, i) == 0
  {
    if i < |d| {
      EvalZeros(w, d[i..]);
    }
  }

  lemma TailWhole(w: nat, d: seq<int>)
    ensures Tail(w, d, 0) == Eval(w, d)
  {
    assert d[0..] == d;
  }

  /** A nonzero digit of width w: odd and small. */
  predicate OddDigit(w: nat, x: int)
    requires w > 0
  {
    x % 2 == 1 && 0 - Pow2(w - 1) < x < Pow2(w - 1)
  }

  /** Non-adjacent form of width w: digits are 0 or odd and small, and nonzero digits are at least w apart. */
  ghost predicate IsWnaf(w: nat, d: seq<int>)
    requires w > 0
  {
    && (forall i :: 0 <= i < |d| ==> d[i] == 0 || OddDigit(w, d[i]))
    && (forall i, j :: 0 <= i < j < |d| && d[i] != 0 && d[j] != 0 ==> j - i >= w)
  }

  /** Appending zeros keeps the form; so does an odd digit w places above the last nonzero one. */
  lemma WnafAppend(w: nat, d: seq<int>, used: nat, x: int, z: seq<int>)
    requires w > 0 && IsWnaf(w, d) && used <= |d| && (used > 0 ==> |d| >= used - 1 + w)
    requires forall i :: used <= i < |d| ==> d[i] == 0
    requires forall i :: 0 <= i < |z| ==> z[i] == 0
    requires x == 0 || OddDigit(w, x)
    ensures IsWnaf(w, d + [x] + z)
  {
  }
}

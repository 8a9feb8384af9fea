/** From Jacobian to affine coordinates: one point, many with one inversion, and tables with known ratios of z. */
module Coordinates {
  import opened Words
  import opened Accumulator
  import opened Powers
  import opened Field
  import opened FieldInverse

  /** A point x/z^2, y/z^3. */
  datatype Gej = Gej(x: Limbs, y: Limbs, z: Limbs, infinity: bool) {
    predicate Multipliable() {
      x.Magnitude(8) && y.Magnitude(8) && z.Magnitude(8)
    }
  }

  datatype Ge = Ge(x: Limbs, y: Limbs, infinity: bool)

  function Sq(x: int): int { Prod(x, x) }

  function Cube(x: int): int { Prod(x, Prod(x, x)) }

  /** The coordinates r over the denominator w are the point a. */
  predicate SamePoint(r: Ge, w: int, a: Gej) {
    && r.infinity == a.infinity
    && ModP(Prod(r.x.Value(), Sq(a.z.Value()))) == ModP(Prod(a.x.Value(), Sq(w)))
    && ModP(Prod(r.y.Value(), Cube(a.z.Value()))) == ModP(Prod(a.y.Value(), Cube(w)))
  }

  lemma Rearrange(x: int, s: int, z: int)
    ensures Prod(Prod(x, Sq(s)), Sq(z)) == Prod(x, Sq(Prod(z, s)))
    ensures Prod(Prod(x, Cube(s)), Cube(z)) == Prod(x, Cube(Prod(z, s)))
  {
    MulAssoc(x, Sq(s), Sq(z));
    MulAssoc(x, Cube(s), Cube(z));
    assert (s * s) * (z * z) == (z * s) * (z * s);
    assert (s * (s * s)) * (z * (z * z)) == (z * s) * ((z * s) * (z * s));
  }

  /** Scaling x by s^2 and y by s^3 moves the denominator from z to z * s. */
  lemma Rescaled(r: Ge, a: Gej, s: int, w: int)
    requires ModP(r.x.Value()) == ModP(Prod(a.x.Value(), Sq(s))) && r.infinity == a.infinity
    requires ModP(r.y.Value()) == ModP(Prod(a.y.Value(), Cube(s)))
    requires ModP(w) == ModP(Prod(a.z.Value(), s))
    ensures SamePoint(r, w, a)
  {
    var x, y, z := a.x.Value(), a.y.Value(), a.z.Value();
    Rearrange(x, s, z);
    Rearrange(y, s, z);
    var t := Prod(z, s);
    hide Prod, ModP, Limbs.Value;
    ProdCongruent(r.x.Value(), Prod(x, Sq(s)), Sq(z), Sq(z));
    ProdCongruent(r.y.Value(), Prod(y, Cube(s)), Cube(z), Cube(z));
    ProdCongruent(t, w, t, w);
    ProdCongruent(t, w, Sq(t), Sq(w));
    ProdCongruent(x, x, Sq(t), Sq(w));
    ProdCongruent(y, y, Cube(t), Cube(w));
  }

  /** There is one point over each denominator: coordinates of a whose z has an inverse are congruent. */
  lemma SamePointUnique(r: Ge, s: Ge, w: int, a: Gej, u: int)
    requires SamePoint(r, w, a) && SamePoint(s, w, a) && Inverts(u, a.z.Value())
    ensures ModP(r.x.Value()) == ModP(s.x.Value()) && ModP(r.y.Value()) == ModP(s.y.Value())
  {
    var z := a.z.Value();
    CancelScale(r.x.Value(), s.x.Value(), z, u);
    CancelScale(r.y.Value(), s.y.Value(), z, u);
  }

  lemma CancelScale(r: int, s: int, z: int, u: int)
    requires Inverts(u, z)
    ensures ModP(Prod(r, Sq(z))) == ModP(Prod(s, Sq(z))) ==> ModP(r) == ModP(s)
    ensures ModP(Prod(r, Cube(z))) == ModP(Prod(s, Cube(z))) ==> ModP(r) == ModP(s)
  {
    Undone(r, z, u);
    Undone(s, z, u);
    hide Prod, ModP;
    if ModP(Prod(r, Sq(z))) == ModP(Prod(s, Sq(z))) {
      ProdCongruent(Prod(r, Sq(z)), Prod(s, Sq(z)), Sq(u), Sq(u));
    }
    if ModP(Prod(r, Cube(z))) == ModP(Prod(s, Cube(z))) {
      ProdCongruent(Prod(r, Cube(z)), Prod(s, Cube(z)), Cube(u), Cube(u));
    }
  }

  lemma Undone(r: int, z: int, u: int)
    requires Inverts(u, z)
    ensures ModP(Prod(Prod(r, Sq(z)), Sq(u))) == ModP(r)
    ensures ModP(Prod(Prod(r, Cube(z)), Cube(u))) == ModP(r)
  {
    Rearrange(r, z, u);
    var t := Prod(u, z);
    ProdSym(u, z);
    ModPTwice(1);
    TimesOne(r);
    hide Prod, ModP;
    ProdCongruent(t, 1, t, 1);
    ProdCongruent(t, 1, Sq(t), Sq(1));
    ProdCongruent(r, r, Sq(t), Sq(1));
    ProdCongruent(r, r, Cube(t), Cube(1));
  }

  lemma TimesOne(r: int)
    ensures Sq(1) == 1 && Cube(1) == 1 && Prod(r, 1) == r && ModP(1) == 1
  {
  }

  /** Coordinates scaled by zi^2 and zi^3. */
  method GeSetGejZinv(a: Gej, zi: Limbs, ghost w: int) returns (r: Ge)
    requires a.Multipliable() && zi.Magnitude(8) && ModP(w) == ModP(Prod(a.z.Value(), zi.Value()))
    ensures SamePoint(r, w, a) && r.infinity == a.infinity && r.x.Magnitude(1) && r.y.Magnitude(1)
  {
    hide ModP, Prod, Limbs.Value, Limbs.Magnitude;
    var zi2 := FeMul(zi, zi);
    var zi3 := FeMul(zi2, zi);
    var x := FeMul(a.x, zi2);
    var y := FeMul(a.y, zi3);
    r := Ge(x, y, a.infinity);
    ghost var s := zi.Value();
    ProdCongruent(zi2.Value(), Sq(s), s, s);
    ProdSym(Sq(s), s);
    ProdCongruent(a.x.Value(), a.x.Value(), zi2.Value(), Sq(s));
    ProdCongruent(a.y.Value(), a.y.Value(), zi3.Value(), Cube(s));
    Rescaled(r, a, s, w);
  }

  /** One point, by an inversion of its own; the Jacobian form is left over z = 1, too. */
  method GeSetGejVar(r0: Ge, a0: Gej) returns (r: Ge, a: Gej)
    requires !a0.infinity ==> a0.Multipliable() && Invertible(a0.z.Value())
    ensures r.infinity == a0.infinity && (a0.infinity ==> a == a0)
    ensures !a0.infinity ==> SamePoint(r, 1, a0) && a == Gej(r.x, r.y, Limbs(1, 0, 0, 0, 0), false)
  {
    hide ModP, Prod, Limbs.Value, Limbs.Magnitude, Invertible, Inverts, SamePoint;
    r, a := r0.(infinity := a0.infinity), a0;
    if a0.infinity {
      return;
    }
    var zi := InverseOf(a0.z, a0.z.Value());
    InvertsRunning(zi.Value(), a0.z.Value());
    InvertsDenominator(zi.Value(), a0.z.Value());
    r := GeSetGejZinv(a0, zi, 1);
    a := Gej(r.x, r.y, Limbs(1, 0, 0, 0, 0), false);
  }

  /** The z coordinates of the points that are not infinity, in order. */
  function Denominators(a: seq<Gej>): seq<Limbs> {
    if a == [] then []
    else
      var last := a[|a| - 1];
      Denominators(a[..|a| - 1]) + if last.infinity then [] else [last.z]
  }

  lemma DenominatorsStep(a: seq<Gej>, i: nat)
    requires i < |a|
    ensures Denominators(a[..i + 1]) == Denominators(a[..i]) + if a[i].infinity then [] else [a[i].z]
  {
    assert a[..i + 1][..i] == a[..i];
  }

  /** The denominators of a beginning are a beginning of the denominators. */
  lemma {:induction false} DenominatorsPrefix(a: seq<Gej>, i: nat)
    requires i <= |a|
    ensures Denominators(a[..i]) <= Denominators(a)
  {
    if i == |a| {
      assert a[..i] == a;
    } else {
      var b := a[..|a| - 1];
      DenominatorsPrefix(b, i);
      assert b[..i] == a[..i];
    }
  }

  lemma {:induction false} DenominatorsKeep(a: seq<Gej>)
    requires forall i :: 0 <= i < |a| && !a[i].infinity ==> a[i].z.Magnitude(8) && Invertible(a[i].z.Value())
    ensures forall k :: 0 <= k < |Denominators(a)| ==>
              Denominators(a)[k].Magnitude(8) && Invertible(Denominators(a)[k].Value())
  {
    hide Invertible, Limbs.Magnitude, Limbs.Value;
    if a != [] {
      DenominatorsKeep(a[..|a| - 1]);
    }
  }

  /** Every point of an array by a single inversion, points at infinity left out of it. */
  method GeSetAllGejVar(r: array<Ge>, a: array<Gej>)
    requires r.Length == a.Length
    requires forall i :: 0 <= i < a.Length && !a[i].infinity ==> a[i].Multipliable() && Invertible(a[i].z.Value())
    modifies r
    ensures forall i :: 0 <= i < a.Length && a[i].infinity ==> r[i] == old(r[i]).(infinity := true)
    ensures forall i :: 0 <= i < a.Length && !a[i].infinity ==> SamePoint(r[i], 1, a[i])
  {
    hide ModP, Prod, Limbs.Value, Limbs.Magnitude, Invertible, Inverts, SamePoint, Denominators;
    var len, i := a.Length, 0;
    ghost var points, before := a[..], r[..];
    var zs: seq<Limbs> := [];
    assert Denominators(points[..0]) == [] by { NoDenominators(points); }
    while i < len
      invariant 0 <= i <= len && zs == Denominators(points[..i]) && r[..] == before
    {
      DenominatorsStep(points, i);
      if !a[i].infinity {
        zs := zs + [a[i].z];
      }
      i := i + 1;
    }
    assert points[..len] == points;
    DenominatorsKeep(points);
    var az := new Limbs[|zs|](k requires 0 <= k < |zs| => zs[k]);
    var azi := new Limbs[|zs|];
    InvAllVar(azi, az);
    assert r[..] == before;
    var count := 0;
    i := 0;
    NoDenominators(points);
    while i < len
      invariant 0 <= i <= len && count == |Denominators(points[..i])|
      invariant a[..] == points && az[..] == zs && fresh(azi)
      invariant forall k :: 0 <= k < az.Length ==> azi[k].Magnitude(8) && Inverts(azi[k].Value(), az[k].Value())
      invariant forall k :: i <= k < len ==> r[k] == before[k]
      invariant forall k :: 0 <= k < i && a[k].infinity ==> r[k] == before[k].(infinity := true)
      invariant forall k :: 0 <= k < i && !a[k].infinity ==> SamePoint(r[k], 1, a[k])
    {
      DenominatorsStep(points, i);
      DenominatorsPrefix(points, i + 1);
      if a[i].infinity {
        r[i] := r[i].(infinity := true);
      } else {
        assert az[count] == a[i].z;
        InvertsDenominator(azi[count].Value(), a[i].z.Value());
        r[i] := GeSetGejZinv(a[i], azi[count], 1);
        count := count + 1;
      }
      i := i + 1;
    }
  }

  lemma NoDenominators(a: seq<Gej>)
    ensures Denominators(a[..0]) == []
  {
  }

  lemma InvertsDenominator(u: int, z: int)
    requires Inverts(u, z)
    ensures ModP(1) == ModP(Prod(z, u))
  {
  }

  /** One step back along the ratios of z: what scales one z to w, times the ratio, scales the z before it. */
  lemma RatioStep(before: int, z: int, ratio: int, s: int, t: int, w: int)
    requires ModP(z) == ModP(Prod(before, ratio)) && ModP(w) == ModP(Prod(z, s)) && ModP(t) == ModP(Prod(s, ratio))
    ensures ModP(w) == ModP(Prod(before, t))
  {
    assert Prod(Prod(before, ratio), s) == Prod(before, Prod(s, ratio)) by {
      MulAssoc(before, ratio, s);
    }
    hide Prod, ModP;
    ProdCongruent(z, Prod(before, ratio), s, s);
    ProdCongruent(before, before, t, Prod(s, ratio));
  }

  /** The points of a table whose z coordinates have known ratios: zr[i] leads from a[i - 1].z to a[i].z. */
  ghost predicate Table(a: seq<Gej>, zr: seq<Limbs>) {
    && |a| == |zr|
    && (forall i :: 0 <= i < |a| ==> a[i].Multipliable() && zr[i].Magnitude(8))
    && (forall i :: 0 < i < |a| ==> ModP(a[i].z.Value()) == ModP(Prod(a[i - 1].z.Value(), zr[i].Value())))
  }

  /** A table by a single inversion, walking backwards along the ratios. */
  method GeSetTableGejVar(r: array<Ge>, a: array<Gej>, zr: array<Limbs>)
    requires r.Length == a.Length && Table(a[..], zr[..])
    requires a.Length > 0 ==> Invertible(a[a.Length - 1].z.Value())
    modifies r
    ensures forall i :: 0 <= i < a.Length ==> SamePoint(r[i], 1, a[i])
  {
    hide ModP, Prod, Limbs.Value, Limbs.Magnitude, Invertible, Inverts, SamePoint;
    if a.Length > 0 {
      var i := a.Length - 1;
      var zi := InverseOf(a[i].z, a[i].z.Value());
      InvertsRunning(zi.Value(), a[i].z.Value());
      InvertsDenominator(zi.Value(), a[i].z.Value());
      r[i] := GeSetGejZinv(a[i], zi, 1);
      while i > 0
        invariant 0 <= i < a.Length && zi.Magnitude(8) && ModP(1) == ModP(Prod(a[i].z.Value(), zi.Value()))
        invariant forall k :: i <= k < a.Length ==> SamePoint(r[k], 1, a[k])
      {
        ghost var s, z := zi.Value(), a[i].z.Value();
        ghost var ratio := zr[..][i].Value();
        zi := FeMul(zi, zr[i]);
        i := i - 1;
        RatioStep(a[..][i].z.Value(), z, ratio, s, zi.Value(), 1);
        r[i] := GeSetGejZinv(a[i], zi, 1);
      }
    }
  }

  /** A table brought to the z of its last point, without any inversion. */
  method GeGlobalzSetTableGej(r: array<Ge>, globalz0: Limbs, a: array<Gej>, zr: array<Limbs>) returns (globalz: Limbs)
    requires r.Length == a.Length && Table(a[..], zr[..])
    modifies r
    ensures globalz == if a.Length == 0 then globalz0 else a[a.Length - 1].z
    ensures forall i :: 0 <= i < a.Length - 1 ==> SamePoint(r[i], globalz.Value(), a[i])
    ensures a.Length > 0 ==> !r[a.Length - 1].infinity
    ensures a.Length > 0 && !a[a.Length - 1].infinity
            ==> SamePoint(r[a.Length - 1], globalz.Value(), a[a.Length - 1])
  {
    hide ModP, Prod, Limbs.Value, Limbs.Magnitude, SamePoint;
    globalz := globalz0;
    var len := a.Length;
    if len > 0 {
      var i := len - 1;
      r[i] := Ge(a[i].x, a[i].y, false);
      globalz := a[i].z;
      ghost var w := globalz.Value();
      if !a[i].infinity { SameDenominator(r[i], a[i]); }
      ghost var last := r[i];
      var zs := zr[i];
      while i > 0
        invariant 0 <= i < len && zs.Magnitude(8) && r[len - 1] == last
        invariant if i == len - 1 then zs == zr[i] else ModP(w) == ModP(Prod(a[i].z.Value(), zs.Value()))
        invariant forall k :: i <= k < len - 1 ==> SamePoint(r[k], w, a[k])
      {
        ghost var s, z := zs.Value(), a[..][i].z.Value();
        ghost var ratio := zr[..][i].Value();
        if i != len - 1 {
          zs := FeMul(zs, zr[i]);
          RatioStep(a[..][i - 1].z.Value(), z, ratio, s, zs.Value(), w);
        }
        i := i - 1;
        assert ModP(w) == ModP(Prod(a[..][i].z.Value(), zs.Value()));
        r[i] := GeSetGejZinv(a[i], zs, w);
      }
    }
  }

  lemma SameDenominator(r: Ge, a: Gej)
    requires r == Ge(a.x, a.y, a.infinity)
    ensures SamePoint(r, a.z.Value(), a)
  {
  }
}

// Polynomials over a level of the field tower: division by a linear factor, roots, interpolation.
module Polynomials {
  import opened FieldTower

  predicate AllAt(p: seq<Elem>, k: nat) {
    forall i :: 0 <= i < |p| ==> At(p[i], k)
  }

  /** The value at x of the polynomial with these coefficients, lowest first. */
  function Eval(p: seq<Elem>, x: Elem, k: nat): (y: Elem)
    requires AllAt(p, k) && At(x, k)
    ensures At(y, k)
  {
    if p == [] then Zero(k) else Add(p[0], Mul(x, Eval(p[1..], x, k), k), k)
  }

  // ---------------------------------------------------------------- roots

  /** The quotient of dividing by x + r. */
  function Quotient(p: seq<Elem>, r: Elem, k: nat): (q: seq<Elem>)
    requires AllAt(p, k) && At(r, k)
    ensures AllAt(q, k) && |q| == if p == [] then 0 else |p| - 1
  {
    if |p| <= 1 then [] else [Eval(p[1..], r, k)] + Quotient(p[1..], r, k)
  }

  /** p(x) = (x + r) q(x) + p(r). */
  lemma {:induction false} QuotientLaw(p: seq<Elem>, r: Elem, x: Elem, k: nat)
    requires AllAt(p, k) && At(r, k) && At(x, k)
    ensures Eval(p, x, k) == Add(Mul(Add(x, r, k), Eval(Quotient(p, r, k), x, k), k), Eval(p, r, k), k)
  {
    MulZero(Add(x, r, k), k);
    if p == [] {
      AddLaws(Zero(k), Zero(k), Zero(k), k);
    } else if |p| == 1 {
      MulZero(x, k);
      MulZero(r, k);
      AddLaws(p[0], Zero(k), Zero(k), k);
    } else {
      QuotientLaw(p[1..], r, x, k);
      var q, t := Eval(Quotient(p[1..], r, k), x, k), Eval(p[1..], r, k);
      assert Quotient(p, r, k)[1..] == Quotient(p[1..], r, k);
      DivisionStep(p[0], q, t, r, x, k);
    }
  }

  /** c + x ((x + r) q + t) = (x + r)(t + x q) + (c + r t). */
  lemma DivisionStep(c: Elem, q: Elem, t: Elem, r: Elem, x: Elem, k: nat)
    requires At(c, k) && At(q, k) && At(t, k) && At(r, k) && At(x, k)
    ensures Add(c, Mul(x, Add(Mul(Add(x, r, k), q, k), t, k), k), k)
         == Add(Mul(Add(x, r, k), Add(t, Mul(x, q, k), k), k), Add(c, Mul(r, t, k), k), k)
  {
    var s := Add(x, r, k);
    MulAdd(x, Mul(s, q, k), t, k);
    MulAdd(s, t, Mul(x, q, k), k);
    ScalarFirst(s, x, q, k);
    AddMul(x, r, t, k);
    hide Add, Mul;
    var sxq, xt, rt := Mul(s, Mul(x, q, k), k), Mul(x, t, k), Mul(r, t, k);
    Settle(c, sxq, xt, rt, k);
  }

  lemma {:induction false} Settle(c: Elem, u: Elem, v: Elem, w: Elem, k: nat)
    requires At(c, k) && At(u, k) && At(v, k) && At(w, k)
    ensures Add(c, Add(u, v, k), k) == Add(Add(Add(v, w, k), u, k), Add(c, w, k), k)
  {
    if k > 0 {
      Settle(c.lo, u.lo, v.lo, w.lo, k - 1);
      Settle(c.hi, u.hi, v.hi, w.hi, k - 1);
    }
  }

  ghost predicate Distinct(xs: seq<Elem>) {
    forall i, j :: 0 <= i < j < |xs| ==> xs[i] != xs[j]
  }

  /** A polynomial with at least as many roots as coefficients is zero everywhere. */
  lemma {:induction false} TooManyRoots(p: seq<Elem>, roots: seq<Elem>, x: Elem, k: nat)
    requires AllAt(p, k) && AllAt(roots, k) && At(x, k) && Distinct(roots) && |roots| >= |p|
    requires forall i :: 0 <= i < |roots| ==> Eval(p, roots[i], k) == Zero(k)
    ensures Eval(p, x, k) == Zero(k)
    decreases |p|
  {
    if p != [] {
      var r, rest := roots[0], roots[1..];
      var q := Quotient(p, r, k);
      forall i | 0 <= i < |rest|
        ensures Eval(q, rest[i], k) == Zero(k)
      {
        assert rest[i] == roots[i + 1];
        OtherRoot(p, r, rest[i], k);
      }
      TooManyRoots(q, rest, x, k);
      QuotientLaw(p, r, x, k);
      MulZero(Add(x, r, k), k);
      AddLaws(Zero(k), Zero(k), Zero(k), k);
    }
  }

  /** A second root is a root of the quotient. */
  lemma OtherRoot(p: seq<Elem>, r: Elem, s: Elem, k: nat)
    requires AllAt(p, k) && At(r, k) && At(s, k) && r != s
    requires Eval(p, r, k) == Zero(k) && Eval(p, s, k) == Zero(k)
    ensures Eval(Quotient(p, r, k), s, k) == Zero(k)
  {
    var q := Eval(Quotient(p, r, k), s, k);
    QuotientLaw(p, r, s, k);
    AddLaws(Mul(Add(s, r, k), q, k), Zero(k), Zero(k), k);
    AddCancels(s, r, k);
    var inverse := HasInverse(Add(s, r, k), k);
    ProductZero(Add(s, r, k), q, inverse, k);
  }

  // ---------------------------------------------------------------- sums and products

  function Plus(p: seq<Elem>, q: seq<Elem>, k: nat): (s: seq<Elem>)
    requires |p| == |q| && AllAt(p, k) && AllAt(q, k)
    ensures AllAt(s, k) && |s| == |p|
  {
    seq(|p|, i requires 0 <= i < |p| => Add(p[i], q[i], k))
  }

  lemma {:induction false} EvalPlus(p: seq<Elem>, q: seq<Elem>, x: Elem, k: nat)
    requires |p| == |q| && AllAt(p, k) && AllAt(q, k) && At(x, k)
    ensures Eval(Plus(p, q, k), x, k) == Add(Eval(p, x, k), Eval(q, x, k), k)
  {
    if p == [] {
      AddLaws(Zero(k), Zero(k), Zero(k), k);
    } else {
      EvalPlus(p[1..], q[1..], x, k);
      assert Plus(p, q, k)[1..] == Plus(p[1..], q[1..], k);
      var a, b := Eval(p[1..], x, k), Eval(q[1..], x, k);
      MulAdd(x, a, b, k);
      AddSwap(p[0], q[0], Mul(x, a, k), Mul(x, b, k), k);
    }
  }

  function Scaled(c: Elem, p: seq<Elem>, k: nat): (s: seq<Elem>)
    requires At(c, k) && AllAt(p, k)
    ensures AllAt(s, k) && |s| == |p|
  {
    seq(|p|, i requires 0 <= i < |p| => Mul(c, p[i], k))
  }

  lemma {:induction false} EvalScaled(c: Elem, p: seq<Elem>, x: Elem, k: nat)
    requires At(c, k) && AllAt(p, k) && At(x, k)
    ensures Eval(Scaled(c, p, k), x, k) == Mul(c, Eval(p, x, k), k)
  {
    if p == [] {
      MulZero(c, k);
    } else {
      EvalScaled(c, p[1..], x, k);
      assert Scaled(c, p, k)[1..] == Scaled(c, p[1..], k);
      var a := Eval(p[1..], x, k);
      ScalarFirst(c, x, a, k);
      MulAdd(c, p[0], Mul(x, a, k), k);
    }
  }

  lemma {:induction false} EvalPadded(p: seq<Elem>, x: Elem, k: nat)
    requires AllAt(p, k) && At(x, k)
    ensures AllAt(p + [Zero(k)], k) && Eval(p + [Zero(k)], x, k) == Eval(p, x, k)
  {
    if p == [] {
      MulZero(x, k);
      AddLaws(Zero(k), Zero(k), Zero(k), k);
    } else {
      EvalPadded(p[1..], x, k);
      assert (p + [Zero(k)])[1..] == p[1..] + [Zero(k)];
    }
  }

  /** (x + r) p(x). */
  function TimesLinear(p: seq<Elem>, r: Elem, k: nat): (s: seq<Elem>)
    requires AllAt(p, k) && At(r, k)
    ensures AllAt(s, k) && |s| == |p| + 1
  {
    Plus([Zero(k)] + p, Scaled(r, p, k) + [Zero(k)], k)
  }

  lemma EvalTimesLinear(p: seq<Elem>, r: Elem, x: Elem, k: nat)
    requires AllAt(p, k) && At(r, k) && At(x, k)
    ensures Eval(TimesLinear(p, r, k), x, k) == Mul(Add(x, r, k), Eval(p, x, k), k)
  {
    var y := Eval(p, x, k);
    EvalPlus([Zero(k)] + p, Scaled(r, p, k) + [Zero(k)], x, k);
    EvalPadded(Scaled(r, p, k), x, k);
    EvalScaled(r, p, x, k);
    assert ([Zero(k)] + p)[1..] == p;
    AddLaws(Mul(x, y, k), Zero(k), Zero(k), k);
    AddMul(x, r, y, k);
  }

  // ---------------------------------------------------------------- interpolation

  ghost predicate Interpolates(p: seq<Elem>, xs: seq<Elem>, ys: seq<Elem>, k: nat) {
    && AllAt(p, k) && AllAt(xs, k) && |p| == |xs| == |ys|
    && forall i :: 0 <= i < |xs| ==> Eval(p, xs[i], k) == ys[i]
  }

  /** The product of all x + xs[i]. */
  function Vanishing(xs: seq<Elem>, k: nat): (p: seq<Elem>)
    requires AllAt(xs, k)
    ensures AllAt(p, k) && |p| == |xs| + 1
  {
    if xs == [] then [One(k)] else TimesLinear(Vanishing(xs[1..], k), xs[0], k)
  }

  /** It is zero at exactly the points it is made of. */
  lemma {:induction false} VanishesAt(xs: seq<Elem>, x: Elem, k: nat)
    requires AllAt(xs, k) && At(x, k)
    ensures Eval(Vanishing(xs, k), x, k) == Zero(k) <==> x in xs
  {
    if xs == [] {
      MulZero(x, k);
      AddLaws(One(k), Zero(k), Zero(k), k);
      OneIsNotZero(k);
    } else {
      var rest := Eval(Vanishing(xs[1..], k), x, k);
      var factor := Add(x, xs[0], k);
      VanishesAt(xs[1..], x, k);
      EvalTimesLinear(Vanishing(xs[1..], k), xs[0], x, k);
      AddCancels(x, xs[0], k);
      MulZero(factor, k);
      MulZero(rest, k);
      MulCommutes(factor, rest, k);
      if factor != Zero(k) && Mul(factor, rest, k) == Zero(k) {
        var inverse := HasInverse(factor, k);
        ProductZero(factor, rest, inverse, k);
      }
    }
  }

  lemma {:induction false} OneIsNotZero(k: nat)
    ensures One(k) != Zero(k)
  {
    if k > 0 {
      OneIsNotZero(k - 1);
    }
  }

  /** Through any values at distinct points there is a polynomial with as many coefficients as points. */
  lemma {:induction false} Interpolation(xs: seq<Elem>, ys: seq<Elem>, k: nat) returns (p: seq<Elem>)
    requires |xs| == |ys| && AllAt(xs, k) && AllAt(ys, k) && Distinct(xs)
    ensures Interpolates(p, xs, ys, k)
  {
    if xs == [] {
      p := [];
    } else {
      var rest := Interpolation(xs[1..], ys[1..], k);
      var x, vanishing := xs[0], Vanishing(xs[1..], k);
      VanishesAt(xs[1..], x, k);
      var inverse := HasInverse(Eval(vanishing, x, k), k);
      var c := Mul(Add(ys[0], Eval(rest, x, k), k), inverse, k);
      p := Plus(rest + [Zero(k)], Scaled(c, vanishing, k), k);
      forall i | 0 <= i < |xs|
        ensures Eval(p, xs[i], k) == ys[i]
      {
        var v := Eval(vanishing, xs[i], k);
        EvalPlus(rest + [Zero(k)], Scaled(c, vanishing, k), xs[i], k);
        EvalPadded(rest, xs[i], k);
        EvalScaled(c, vanishing, xs[i], k);
        if i == 0 {
          Corrects(ys[0], Eval(rest, x, k), v, inverse, k);
        } else {
          VanishesAt(xs[1..], xs[i], k);
          assert xs[i] == xs[1..][i - 1];
          MulZero(c, k);
          AddLaws(ys[i], Zero(k), Zero(k), k);
        }
      }
    }
  }

  /** z + ((y + z) / v) v = y. */
  lemma Corrects(y: Elem, z: Elem, v: Elem, inverse: Elem, k: nat)
    requires At(y, k) && At(z, k) && At(v, k) && At(inverse, k) && Mul(v, inverse, k) == One(k)
    ensures Add(z, Mul(Mul(Add(y, z, k), inverse, k), v, k), k) == y
  {
    var d := Add(y, z, k);
    MulAssociates(d, inverse, v, k);
    MulCommutes(inverse, v, k);
    MulOne(d, k);
    AddLaws(z, d, d, k);
    AddCancels(y, z, k);
  }

  /** Two polynomials with n coefficients that agree at n distinct points agree everywhere. */
  lemma AgreeEverywhere(p: seq<Elem>, q: seq<Elem>, xs: seq<Elem>, x: Elem, k: nat)
    requires |p| == |q| == |xs| && AllAt(p, k) && AllAt(q, k) && AllAt(xs, k) && Distinct(xs) && At(x, k)
    requires forall i :: 0 <= i < |xs| ==> Eval(p, xs[i], k) == Eval(q, xs[i], k)
    ensures Eval(p, x, k) == Eval(q, x, k)
  {
    forall i | 0 <= i < |xs|
      ensures Eval(Plus(p, q, k), xs[i], k) == Zero(k)
    {
      EvalPlus(p, q, xs[i], k);
      AddCancels(Eval(p, xs[i], k), Eval(q, xs[i], k), k);
    }
    TooManyRoots(Plus(p, q, k), xs, x, k);
    EvalPlus(p, q, x, k);
    AddCancels(Eval(p, x, k), Eval(q, x, k), k);
  }
}

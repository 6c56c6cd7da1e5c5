// Finite fields of 2^(2^k) elements, built as a tower of quadratic extensions; level 3 has one element per byte.
module FieldTower {

  /** At level 0 a bit; one level up lo + hi * w, where w * w = w + Gamma of the level below. */
  datatype Elem = Bit(bit: bool) | Pair(lo: Elem, hi: Elem)

  predicate At(x: Elem, k: nat) {
    if k == 0 then x.Bit? else x.Pair? && At(x.lo, k - 1) && At(x.hi, k - 1)
  }

  function Zero(k: nat): (z: Elem)
    ensures At(z, k)
  {
    if k == 0 then Bit(false) else Pair(Zero(k - 1), Zero(k - 1))
  }

  function One(k: nat): (z: Elem)
    ensures At(z, k)
  {
    if k == 0 then Bit(true) else Pair(One(k - 1), Zero(k - 1))
  }

  function Gamma(k: nat): (z: Elem)
    ensures At(z, k)
  {
    if k == 0 then Bit(true) else Pair(Zero(k - 1), Gamma(k - 1))
  }

  function Add(x: Elem, y: Elem, k: nat): (z: Elem)
    requires At(x, k) && At(y, k)
    ensures At(z, k)
  {
    if k == 0 then Bit(x.bit != y.bit) else Pair(Add(x.lo, y.lo, k - 1), Add(x.hi, y.hi, k - 1))
  }

  function Mul(x: Elem, y: Elem, k: nat): (z: Elem)
    requires At(x, k) && At(y, k)
    ensures At(z, k)
    decreases k
  {
    if k == 0 then Bit(x.bit && y.bit)
    else
      var high := Mul(x.hi, y.hi, k - 1);
      Pair(Add(Mul(x.lo, y.lo, k - 1), Mul(Gamma(k - 1), high, k - 1), k - 1),
           Add(Add(Mul(x.lo, y.hi, k - 1), Mul(x.hi, y.lo, k - 1), k - 1), high, k - 1))
  }

  // ---------------------------------------------------------------- addition

  lemma {:induction false} AddLaws(x: Elem, y: Elem, z: Elem, k: nat)
    requires At(x, k) && At(y, k) && At(z, k)
    ensures Add(x, y, k) == Add(y, x, k)
    ensures Add(Add(x, y, k), z, k) == Add(x, Add(y, z, k), k)
    ensures Add(x, Zero(k), k) == x == Add(Zero(k), x, k) && Add(x, x, k) == Zero(k)
  {
    if k > 0 {
      AddLaws(x.lo, y.lo, z.lo, k - 1);
      AddLaws(x.hi, y.hi, z.hi, k - 1);
    }
  }

  /** Sums that cancel: x + y = 0 exactly when x = y. */
  lemma AddCancels(x: Elem, y: Elem, k: nat)
    requires At(x, k) && At(y, k)
    ensures Add(x, y, k) == Zero(k) <==> x == y
    ensures Add(Add(x, y, k), y, k) == x
  {
    AddLaws(x, y, y, k);
    AddLaws(y, y, y, k);
  }

  /** (a + b) + (c + d) = (a + c) + (b + d). */
  lemma {:induction false} AddSwap(a: Elem, b: Elem, c: Elem, d: Elem, k: nat)
    requires At(a, k) && At(b, k) && At(c, k) && At(d, k)
    ensures Add(Add(a, b, k), Add(c, d, k), k) == Add(Add(a, c, k), Add(b, d, k), k)
  {
    if k > 0 {
      AddSwap(a.lo, b.lo, c.lo, d.lo, k - 1);
      AddSwap(a.hi, b.hi, c.hi, d.hi, k - 1);
    }
  }

  // ---------------------------------------------------------------- multiplication

  lemma {:induction false} MulCommutes(x: Elem, y: Elem, k: nat)
    requires At(x, k) && At(y, k)
    ensures Mul(x, y, k) == Mul(y, x, k)
    decreases k
  {
    if k > 0 {
      MulCommutes(x.lo, y.lo, k - 1);
      MulCommutes(x.hi, y.hi, k - 1);
      MulCommutes(x.lo, y.hi, k - 1);
      MulCommutes(x.hi, y.lo, k - 1);
      AddLaws(Mul(x.lo, y.hi, k - 1), Mul(x.hi, y.lo, k - 1), Zero(k - 1), k - 1);
    }
  }

  lemma {:induction false} MulZero(x: Elem, k: nat)
    requires At(x, k)
    ensures Mul(x, Zero(k), k) == Zero(k)
    decreases k
  {
    if k > 0 {
      MulZero(x.lo, k - 1);
      MulZero(x.hi, k - 1);
      MulZero(Gamma(k - 1), k - 1);
      AddLaws(Zero(k - 1), Zero(k - 1), Zero(k - 1), k - 1);
    }
  }

  lemma {:induction false} MulOne(x: Elem, k: nat)
    requires At(x, k)
    ensures Mul(x, One(k), k) == x
    decreases k
  {
    if k > 0 {
      MulOne(x.lo, k - 1);
      MulOne(x.hi, k - 1);
      MulZero(x.lo, k - 1);
      MulZero(x.hi, k - 1);
      MulZero(Gamma(k - 1), k - 1);
      AddLaws(x.lo, Zero(k - 1), Zero(k - 1), k - 1);
      AddLaws(x.hi, Zero(k - 1), Zero(k - 1), k - 1);
    }
  }

  lemma {:induction false} MulAdd(x: Elem, y: Elem, z: Elem, k: nat)
    requires At(x, k) && At(y, k) && At(z, k)
    ensures Mul(x, Add(y, z, k), k) == Add(Mul(x, y, k), Mul(x, z, k), k)
    decreases k
  {
    if k > 0 {
      var j := k - 1;
      MulAdd(x.lo, y.lo, z.lo, j);
      MulAdd(x.hi, y.hi, z.hi, j);
      MulAdd(x.lo, y.hi, z.hi, j);
      MulAdd(x.hi, y.lo, z.lo, j);
      MulAdd(Gamma(j), Mul(x.hi, y.hi, j), Mul(x.hi, z.hi, j), j);
      AddSwap(Mul(x.lo, y.lo, j), Mul(x.lo, z.lo, j),
              Mul(Gamma(j), Mul(x.hi, y.hi, j), j), Mul(Gamma(j), Mul(x.hi, z.hi, j), j), j);
      AddSwap(Mul(x.lo, y.hi, j), Mul(x.lo, z.hi, j), Mul(x.hi, y.lo, j), Mul(x.hi, z.lo, j), j);
      AddSwap(Add(Mul(x.lo, y.hi, j), Mul(x.hi, y.lo, j), j), Add(Mul(x.lo, z.hi, j), Mul(x.hi, z.lo, j), j),
              Mul(x.hi, y.hi, j), Mul(x.hi, z.hi, j), j);
    }
  }

  lemma AddMul(x: Elem, y: Elem, z: Elem, k: nat)
    requires At(x, k) && At(y, k) && At(z, k)
    ensures Mul(Add(x, y, k), z, k) == Add(Mul(x, z, k), Mul(y, z, k), k)
  {
    MulAdd(z, x, y, k);
    MulCommutes(z, x, k);
    MulCommutes(z, y, k);
    MulCommutes(z, Add(x, y, k), k);
  }

  lemma {:induction false} RearrangeFive(a: Elem, b: Elem, c: Elem, d: Elem, e: Elem, k: nat)
    requires At(a, k) && At(b, k) && At(c, k) && At(d, k) && At(e, k)
    ensures Add(Add(a, b, k), Add(Add(c, d, k), e, k), k) == Add(Add(a, c, k), Add(Add(d, b, k), e, k), k)
  {
    if k > 0 {
      RearrangeFive(a.lo, b.lo, c.lo, d.lo, e.lo, k - 1);
      RearrangeFive(a.hi, b.hi, c.hi, d.hi, e.hi, k - 1);
    }
  }

  lemma {:induction false} RearrangeEight(a: Elem, b: Elem, c: Elem, d: Elem, e: Elem, f: Elem, g: Elem, h: Elem, k: nat)
    requires At(a, k) && At(b, k) && At(c, k) && At(d, k) && At(e, k) && At(f, k) && At(g, k) && At(h, k)
    ensures Add(Add(Add(a, b, k), Add(Add(c, d, k), e, k), k), Add(Add(f, g, k), h, k), k)
         == Add(Add(Add(Add(a, c, k), f, k), Add(d, b, k), k), Add(Add(g, e, k), h, k), k)
  {
    if k > 0 {
      RearrangeEight(a.lo, b.lo, c.lo, d.lo, e.lo, f.lo, g.lo, h.lo, k - 1);
      RearrangeEight(a.hi, b.hi, c.hi, d.hi, e.hi, f.hi, g.hi, h.hi, k - 1);
    }
  }

  /** (p + q) + r times z, term by term. */
  lemma SumTimes(p: Elem, q: Elem, r: Elem, z: Elem, k: nat)
    requires At(p, k) && At(q, k) && At(r, k) && At(z, k)
    ensures Mul(Add(Add(p, q, k), r, k), z, k) == Add(Add(Mul(p, z, k), Mul(q, z, k), k), Mul(r, z, k), k)
    ensures Mul(z, Add(Add(p, q, k), r, k), k) == Add(Add(Mul(z, p, k), Mul(z, q, k), k), Mul(z, r, k), k)
  {
    AddMul(Add(p, q, k), r, z, k);
    AddMul(p, q, z, k);
    MulAdd(z, Add(p, q, k), r, k);
    MulAdd(z, p, q, k);
  }

  /** A scalar g moves in front of a product. */
  lemma ScalarFirst(g: Elem, x: Elem, y: Elem, k: nat)
    requires At(g, k) && At(x, k) && At(y, k)
    ensures Mul(x, Mul(g, y, k), k) == Mul(g, Mul(x, y, k), k) == Mul(Mul(g, x, k), y, k)
    decreases k, 2
  {
    MulAssociates(x, g, y, k);
    MulAssociates(g, x, y, k);
    MulCommutes(x, g, k);
  }

  lemma {:induction false} MulAssociates(x: Elem, y: Elem, z: Elem, k: nat)
    requires At(x, k) && At(y, k) && At(z, k)
    ensures Mul(Mul(x, y, k), z, k) == Mul(x, Mul(y, z, k), k)
    decreases k, 1
  {
    if k > 0 {
      AssociatesLow(x, y, z, k);
      AssociatesHigh(x, y, z, k);
    }
  }

  lemma AssociatesLow(x: Elem, y: Elem, z: Elem, k: nat)
    requires k > 0 && At(x, k) && At(y, k) && At(z, k)
    ensures Mul(Mul(x, y, k), z, k).lo == Mul(x, Mul(y, z, k), k).lo
    decreases k, 0
  {
    var j, g := k - 1, Gamma(k - 1);
    var (a, b, c, d, e, f) := (x.lo, x.hi, y.lo, y.hi, z.lo, z.hi);
    var ac, bd, ad, bc := Mul(a, c, j), Mul(b, d, j), Mul(a, d, j), Mul(b, c, j);
    var ce, df, cf, de := Mul(c, e, j), Mul(d, f, j), Mul(c, f, j), Mul(d, e, j);
    MulAssociates(a, c, e, j);
    MulAssociates(b, d, e, j);
    MulAssociates(a, d, f, j);
    MulAssociates(b, c, f, j);
    MulAssociates(b, d, f, j);
    AddMul(ac, Mul(g, bd, j), e, j);
    ScalarFirst(g, bd, e, j);
    SumTimes(ad, bc, bd, f, j);
    SumTimes(Mul(ad, f, j), Mul(bc, f, j), Mul(bd, f, j), g, j);
    MulAdd(a, ce, Mul(g, df, j), j);
    ScalarFirst(g, a, df, j);
    SumTimes(cf, de, df, b, j);
    SumTimes(Mul(b, cf, j), Mul(b, de, j), Mul(b, df, j), g, j);
    hide Mul, Add;
    RearrangeFive(Mul(ac, e, j), Mul(g, Mul(bd, e, j), j), Mul(g, Mul(ad, f, j), j), Mul(g, Mul(bc, f, j), j),
                  Mul(g, Mul(bd, f, j), j), j);
  }

  lemma AssociatesHigh(x: Elem, y: Elem, z: Elem, k: nat)
    requires k > 0 && At(x, k) && At(y, k) && At(z, k)
    ensures Mul(Mul(x, y, k), z, k).hi == Mul(x, Mul(y, z, k), k).hi
    decreases k, 0
  {
    var j, g := k - 1, Gamma(k - 1);
    var (a, b, c, d, e, f) := (x.lo, x.hi, y.lo, y.hi, z.lo, z.hi);
    var ac, bd, ad, bc := Mul(a, c, j), Mul(b, d, j), Mul(a, d, j), Mul(b, c, j);
    var ce, df, cf, de := Mul(c, e, j), Mul(d, f, j), Mul(c, f, j), Mul(d, e, j);
    MulAssociates(a, c, f, j);
    MulAssociates(b, d, f, j);
    MulAssociates(a, d, e, j);
    MulAssociates(b, c, e, j);
    MulAssociates(b, d, e, j);
    MulAssociates(a, d, f, j);
    MulAssociates(b, c, f, j);
    AddMul(ac, Mul(g, bd, j), f, j);
    ScalarFirst(g, bd, f, j);
    SumTimes(ad, bc, bd, e, j);
    SumTimes(ad, bc, bd, f, j);
    SumTimes(cf, de, df, a, j);
    MulAdd(b, ce, Mul(g, df, j), j);
    ScalarFirst(g, b, df, j);
    SumTimes(cf, de, df, b, j);
    hide Mul, Add;
    RearrangeEight(Mul(ac, f, j), Mul(g, Mul(bd, f, j), j), Mul(ad, e, j), Mul(bc, e, j), Mul(bd, e, j),
                   Mul(ad, f, j), Mul(bc, f, j), Mul(bd, f, j), j);
  }

  // ---------------------------------------------------------------- inverses

  /** t * t + t never is Gamma: the polynomial that the next level adjoins a root of has no root yet. */
  lemma {:induction false} NoRoot(t: Elem, k: nat)
    requires At(t, k)
    ensures Add(Mul(t, t, k), t, k) != Gamma(k)
    decreases k
  {
    if k > 0 {
      var j := k - 1;
      var cross := Mul(t.lo, t.hi, j);
      MulCommutes(t.lo, t.hi, j);
      AddLaws(cross, cross, cross, j);
      AddLaws(Mul(t.hi, t.hi, j), Zero(j), Zero(j), j);
      NoRoot(t.hi, j);
    }
  }

  /** The norm of lo + hi * w over the level below. */
  function Norm(a: Elem, b: Elem, k: nat): (n: Elem)
    requires At(a, k) && At(b, k)
    ensures At(n, k)
  {
    Add(Add(Mul(a, a, k), Mul(a, b, k), k), Mul(Gamma(k), Mul(b, b, k), k), k)
  }

  lemma ProductZero(x: Elem, y: Elem, inverse: Elem, k: nat)
    requires At(x, k) && At(y, k) && At(inverse, k) && Mul(x, inverse, k) == One(k)
    requires Mul(x, y, k) == Zero(k)
    ensures y == Zero(k)
  {
    MulAssociates(inverse, x, y, k);
    MulCommutes(inverse, x, k);
    MulCommutes(One(k), y, k);
    MulOne(y, k);
    MulZero(inverse, k);
  }

  /** Dividing the norm by b squared: with t = a / b it is t * t + t + Gamma. */
  lemma NormOverSquare(a: Elem, b: Elem, c: Elem, k: nat)
    requires At(a, k) && At(b, k) && At(c, k) && Mul(b, c, k) == One(k)
    ensures var t := Mul(a, c, k);
      Mul(Mul(Norm(a, b, k), c, k), c, k) == Add(Add(Mul(t, t, k), t, k), Gamma(k), k)
  {
    var t, aa, ab, bb := Mul(a, c, k), Mul(a, a, k), Mul(a, b, k), Mul(b, b, k);
    SumTimes(aa, ab, Mul(Gamma(k), bb, k), c, k);
    SumTimes(Mul(aa, c, k), Mul(ab, c, k), Mul(Mul(Gamma(k), bb, k), c, k), c, k);
    assert Mul(Mul(aa, c, k), c, k) == Mul(t, t, k) by {
      MulAssociates(a, a, c, k);
      MulAssociates(a, t, c, k);
      MulCommutes(t, c, k);
      MulAssociates(a, c, t, k);
    }
    assert Mul(bb, c, k) == b && Mul(ab, c, k) == a by {
      MulAssociates(b, b, c, k);
      MulOne(b, k);
      MulAssociates(a, b, c, k);
      MulOne(a, k);
    }
    assert Mul(Mul(Mul(Gamma(k), bb, k), c, k), c, k) == Gamma(k) by {
      MulAssociates(Gamma(k), bb, c, k);
      MulAssociates(Gamma(k), b, c, k);
      MulOne(Gamma(k), k);
    }
  }

  lemma NormIsNotZero(a: Elem, b: Elem, k: nat)
    requires At(a, k) && At(b, k) && (a != Zero(k) || b != Zero(k))
    ensures Norm(a, b, k) != Zero(k)
    decreases k, 1
  {
    if b == Zero(k) {
      var i := HasInverse(a, k);
      MulZero(a, k);
      MulZero(b, k);
      MulZero(Gamma(k), k);
      AddLaws(Mul(a, a, k), Zero(k), Zero(k), k);
      if Mul(a, a, k) == Zero(k) {
        ProductZero(a, a, i, k);
      }
    } else if Norm(a, b, k) == Zero(k) {
      var c := HasInverse(b, k);
      var t := Mul(a, c, k);
      NormOverSquare(a, b, c, k);
      MulZero(c, k);
      MulCommutes(c, Zero(k), k);
      AddCancels(Add(Mul(t, t, k), t, k), Gamma(k), k);
      NoRoot(t, k);
    }
  }

  /** Everything but zero has an inverse: each level is a field. */
  lemma {:induction false} HasInverse(x: Elem, k: nat) returns (y: Elem)
    requires At(x, k) && x != Zero(k)
    ensures At(y, k) && Mul(x, y, k) == One(k)
    decreases k, 0
  {
    if k == 0 {
      y := x;
    } else {
      var j, a, b := k - 1, x.lo, x.hi;
      NormIsNotZero(a, b, j);
      var i := HasInverse(Norm(a, b, j), j);
      y := Pair(Mul(i, Add(a, b, j), j), Mul(i, b, j));
      ConjugateInverts(a, b, i, j);
    }
  }

  lemma ConjugateInverts(a: Elem, b: Elem, i: Elem, j: nat)
    requires At(a, j) && At(b, j) && At(i, j) && Mul(Norm(a, b, j), i, j) == One(j)
    ensures Mul(Pair(a, b), Pair(Mul(i, Add(a, b, j), j), Mul(i, b, j)), j + 1) == One(j + 1)
  {
    var g, aa, ab, bb := Gamma(j), Mul(a, a, j), Mul(a, b, j), Mul(b, b, j);
    ScalarFirst(i, a, Add(a, b, j), j);
    ScalarFirst(i, b, Add(a, b, j), j);
    ScalarFirst(i, a, b, j);
    ScalarFirst(i, b, b, j);
    ScalarFirst(i, g, bb, j);
    MulAdd(a, a, b, j);
    MulAdd(b, a, b, j);
    MulCommutes(b, a, j);
    MulCommutes(i, Norm(a, b, j), j);
    MulAdd(i, Add(aa, ab, j), Mul(g, bb, j), j);
    MulAdd(i, ab, bb, j);
    var iab, ibb := Mul(i, ab, j), Mul(i, bb, j);
    AddLaws(iab, iab, ibb, j);
    AddLaws(ibb, ibb, ibb, j);
    AddLaws(Zero(j), ibb, ibb, j);
  }
}


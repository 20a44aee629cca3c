/** Coefficients of the polynomial engine.
    A coefficient is an exact real number, or the indeterminate value that the
    engine uses to mark an unresolved constant of integration (a quiet NaN in
    floating point). Like a NaN, the indeterminate value absorbs every
    arithmetic operation and is never equal to zero. */
module Coefs {

  datatype Coef = Num(r: real) | Indet

  function Add(a: Coef, b: Coef): Coef {
    if a.Num? && b.Num? then Num(a.r + b.r) else Indet
  }

  function Neg(a: Coef): Coef {
    if a.Num? then Num(-a.r) else Indet
  }

  function Sub(a: Coef, b: Coef): Coef {
    if a.Num? && b.Num? then Num(a.r - b.r) else Indet
  }

  function Mul(a: Coef, b: Coef): Coef {
    if a.Num? && b.Num? then Num(a.r * b.r) else Indet
  }

  /** Division; a zero divisor gives an infinity or a NaN in floating point,
      both of which this model collapses to the indeterminate value. */
  function Div(a: Coef, b: Coef): Coef {
    if a.Num? && b.Num? && b.r != 0.0 then Num(a.r / b.r) else Indet
  }

  /** Real value of a coefficient, used to state exact-arithmetic identities. */
  function Re(a: Coef): real {
    if a.Num? then a.r else 0.0
  }

  const Zero: Coef := Num(0.0)
  const One: Coef := Num(1.0)

  // Algebraic facts about the coefficient operations.

  lemma AddComm(a: Coef, b: Coef)
    ensures Add(a, b) == Add(b, a)
  {
  }

  lemma AddAssoc(a: Coef, b: Coef, c: Coef)
    ensures Add(Add(a, b), c) == Add(a, Add(b, c))
  {
  }

  lemma AddZero(a: Coef)
    ensures Add(Zero, a) == a && Add(a, Zero) == a
  {
  }

  lemma NegAdd(a: Coef, b: Coef)
    ensures Neg(Add(a, b)) == Add(Neg(a), Neg(b))
    ensures Add(a, Neg(b)) == Sub(a, b)
    ensures Neg(Zero) == Zero
  {
  }

  /** A nonzero exact coefficient times its reciprocal is one. */
  lemma MulReciprocal(c: Coef)
    requires c.Num? && c != Zero
    ensures Mul(c, Div(One, c)) == One
  {
    assert c.r != 0.0;
    assert c.r * (1.0 / c.r) == 1.0;
  }

  /** The reciprocal of a nonzero exact coefficient is a nonzero exact
      coefficient. */
  lemma ReciprocalNonzero(c: Coef)
    requires c.Num? && c != Zero
    ensures Div(One, c).Num? && Div(One, c) != Zero
  {
    MulReciprocal(c);
  }

  lemma MulAddLeft(k: Coef, a: Coef, b: Coef)
    ensures Mul(k, Add(a, b)) == Add(Mul(k, a), Mul(k, b))
  {
    if a.Num? && b.Num? && k.Num? {
      assert k.r * (a.r + b.r) == k.r * a.r + k.r * b.r;
    }
  }

  lemma MulAddRight(a: Coef, b: Coef, k: Coef)
    ensures Mul(Add(a, b), k) == Add(Mul(a, k), Mul(b, k))
  {
    if a.Num? && b.Num? && k.Num? {
      assert (a.r + b.r) * k.r == a.r * k.r + b.r * k.r;
    }
  }
}

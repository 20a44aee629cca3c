/** A monomial `coef * x^exp`, with the engine's power-rule shifts:
    `<<` is the antiderivative step and `>>` the derivative step, each applied
    a given number of times. */
module Terms {
  import opened Coefs

  datatype Term = Term(coef: Coef, exp: nat)

  /** The default term 0*x^0, and the constant-of-integration marker C*x^0. */
  const ZeroTerm: Term := Term(Zero, 0)
  const Constant: Term := Term(Indet, 0)

  function Negate(t: Term): Term {
    Term(Neg(t.coef), t.exp)
  }

  function Times(a: Term, b: Term): Term {
    Term(Mul(a.coef, b.coef), a.exp + b.exp)
  }

  function Scale(t: Term, k: Coef): Term {
    Term(Mul(t.coef, k), t.exp)
  }

  /** (e+1)(e+2)...(e+n): the divisor of n antiderivative steps from x^e. */
  function Rising(e: nat, n: nat): (r: nat)
    ensures r >= 1
  {
    if n == 0 then 1 else Rising(e, n - 1) * (e + n)
  }

  /** e(e-1)...(e-n+1): the factor of n derivative steps from x^e (zero once n > e). */
  function Falling(e: nat, n: nat): int {
    if n == 0 then 1 else Falling(e, n - 1) * (e - (n - 1))
  }

  /** The closed form of `t << n`. */
  function Antiderive(t: Term, n: nat): (r: Term)
    ensures r.exp == t.exp + n
  {
    if t == ZeroTerm then Term(Indet, n)
    else Term(Div(t.coef, Num(Rising(t.exp, n) as real)), t.exp + n)
  }

  /** The closed form of `t >> n`. */
  function Derive(t: Term, n: nat): Term {
    if n <= t.exp then Term(Mul(t.coef, Num(Falling(t.exp, n) as real)), t.exp - n)
    else ZeroTerm
  }

  /** The antiderivative steps one at a time, as the loop of `operator<<` takes them. */
  function AntiSteps(c: Coef, e: nat, n: nat): Term
    decreases n
  {
    if n == 0 then Term(c, e) else AntiSteps(Div(c, Num((e + 1) as real)), e + 1, n - 1)
  }

  /** The derivative steps one at a time, as the loop of `operator>>` takes them:
      at exponent 0 the coefficient becomes 0 and the loop stops. */
  function DeriveSteps(c: Coef, e: nat, n: nat): Term
    decreases n
  {
    if n == 0 then Term(c, e)
    else if e == 0 then Term(Zero, 0)
    else DeriveSteps(Mul(c, Num(e as real)), e - 1, n - 1)
  }

  /** `Term::operator<<`: n antiderivative steps; 0*x^0 becomes the
      indeterminate constant first. */
  method ShiftUp(t: Term, n: nat) returns (r: Term)
    ensures r.exp == t.exp + n
    ensures t != ZeroTerm && t.coef.Num? ==>
      r.coef.Num? && r.coef.r * (Rising(t.exp, n) as real) == t.coef.r
    ensures t == ZeroTerm ==> r.coef == Indet
    ensures r == Antiderive(t, n)
  {
    var c := t.coef;
    var e := t.exp;
    if c == Zero && e == 0 {
      c := Indet;
    }
    ghost var c0 := c;
    var i := 0;
    while i < n
      invariant i <= n
      invariant AntiSteps(c, e, n - i) == AntiSteps(c0, t.exp, n)
    {
      e := e + 1;
      c := Div(c, Num(e as real));
      i := i + 1;
    }
    r := Term(c, e);
    AntiStepsClosed(c0, t.exp, n);
    if t != ZeroTerm && t.coef.Num? {
      AntideriveCancels(t, n);
    }
  }

  /** `Term::operator>>`: n derivative steps; the derivative of a constant is 0*x^0
      and further steps leave it there. */
  method ShiftDown(t: Term, n: nat) returns (r: Term)
    ensures n <= t.exp ==> r.exp == t.exp - n && r.coef == Mul(t.coef, Num(Falling(t.exp, n) as real))
    ensures n > t.exp ==> r == ZeroTerm
    ensures r == Derive(t, n)
  {
    var c := t.coef;
    var e := t.exp;
    var i := 0;
    while i < n
      invariant i <= n
      invariant DeriveSteps(c, e, n - i) == DeriveSteps(t.coef, t.exp, n)
    {
      if e == 0 {
        c := Zero;
        break;
      }
      c := Mul(c, Num(e as real));
      e := e - 1;
      i := i + 1;
    }
    r := Term(c, e);
    DeriveStepsClosed(t.coef, t.exp, n);
  }

  /** The closed form of the antiderivative steps: one division by the rising product. */
  lemma {:induction false} AntiStepsClosed(c: Coef, e: nat, n: nat)
    ensures AntiSteps(c, e, n) == Term(Div(c, Num(Rising(e, n) as real)), e + n)
    decreases n
  {
    if n == 0 {
      if c.Num? {
        assert c.r / 1.0 == c.r;
      }
    } else {
      AntiStepsClosed(Div(c, Num((e + 1) as real)), e + 1, n - 1);
      AntiStepCoef(c, e, n);
    }
  }

  /** The closed form of the derivative steps: one multiplication by the falling
      product, or 0*x^0 once the steps pass exponent 0. */
  lemma {:induction false} DeriveStepsClosed(c: Coef, e: nat, n: nat)
    ensures DeriveSteps(c, e, n) == Derive(Term(c, e), n)
    decreases n
  {
    if n == 0 {
      if c.Num? {
        assert c.r * 1.0 == c.r;
      }
    } else if e > 0 {
      DeriveStepsClosed(Mul(c, Num(e as real)), e - 1, n - 1);
      if n <= e {
        DeriveStepCoef(c, e, n);
      }
    }
  }

  lemma AntiStepCoef(c: Coef, e: nat, n: nat)
    requires 0 < n
    ensures Div(Div(c, Num((e + 1) as real)), Num(Rising(e + 1, n - 1) as real)) == Div(c, Num(Rising(e, n) as real))
  {
    RisingFront(e, n);
    CastMul(e + 1, Rising(e + 1, n - 1), Rising(e, n));
    DivTwice(c, (e + 1) as real, Rising(e + 1, n - 1) as real);
  }

  lemma CastMul(x: int, y: int, z: int)
    requires z == x * y
    ensures z as real == (x as real) * (y as real)
  {
  }

  lemma DeriveStepCoef(c: Coef, e: nat, n: nat)
    requires 0 < n <= e
    ensures Mul(Mul(c, Num(e as real)), Num(Falling(e - 1, n - 1) as real)) == Mul(c, Num(Falling(e, n) as real))
  {
    FallingFront(e, n);
    MulTwice(c, e as real, Falling(e - 1, n - 1) as real);
  }

  /** Multiplying the coefficient of `t << n` by the rising product gives the
      coefficient of t back. */
  lemma AntideriveCancels(t: Term, n: nat)
    requires t != ZeroTerm && t.coef.Num?
    ensures Antiderive(t, n).coef.Num?
    ensures Antiderive(t, n).coef.r * (Rising(t.exp, n) as real) == t.coef.r
  {
    var x, y := t.coef.r, Rising(t.exp, n) as real;
    assert x / y * y == x;
  }

  /** Rising(e, n) peeled at the front: (e+1) * Rising(e+1, n-1). */
  lemma {:induction false} RisingFront(e: nat, n: nat)
    requires n > 0
    ensures Rising(e, n) == (e + 1) * Rising(e + 1, n - 1)
  {
    if n > 1 {
      RisingFront(e, n - 1);
      var r, k := Rising(e + 1, n - 2), e + n;
      assert Rising(e, n) == Rising(e, n - 1) * k;
      assert Rising(e + 1, n - 1) == r * k;
      Assoc(e + 1, r, k);
    }
  }

  lemma Assoc(a: int, b: int, c: int)
    ensures a * b * c == a * (b * c)
  {
  }

  lemma DivTwice(c: Coef, x: real, y: real)
    requires x > 0.0 && y > 0.0
    ensures Div(Div(c, Num(x)), Num(y)) == Div(c, Num(x * y))
  {
    if c.Num? {
      assert c.r / x / y == c.r / (x * y);
    }
  }

  lemma MulTwice(c: Coef, x: real, y: real)
    ensures Mul(Mul(c, Num(x)), Num(y)) == Mul(c, Num(x * y))
  {
    if c.Num? {
      assert c.r * x * y == c.r * (x * y);
    }
  }

  // Properties of the term operations.

  lemma NegateInvolution(t: Term)
    ensures Negate(Negate(t)) == t
    ensures Negate(t).exp == t.exp
  {
  }

  lemma TimesCommutes(a: Term, b: Term)
    ensures Times(a, b) == Times(b, a)
    ensures Times(a, b).exp == a.exp + b.exp
    ensures Times(a, Term(One, 0)) == a
  {
    if a.coef.Num? {
      assert a.coef.r * 1.0 == a.coef.r;
    }
  }

  /** `t * k` for a float k is t times the constant term k*x^0. */
  lemma ScaleIsTimesConstant(t: Term, k: Coef)
    ensures Scale(t, k) == Times(t, Term(k, 0))
    ensures Scale(t, k).exp == t.exp
  {
  }

  /** Falling(e, n) peeled at the front: e * Falling(e-1, n-1). */
  lemma {:induction false} FallingFront(e: nat, n: nat)
    requires e > 0 && n > 0
    ensures Falling(e, n) == e * Falling(e - 1, n - 1)
  {
    if n > 1 {
      FallingFront(e, n - 1);
      var f, k := Falling(e - 1, n - 2), e - (n - 1);
      assert Falling(e, n) == Falling(e, n - 1) * k;
      assert Falling(e - 1, n - 1) == f * k;
      Assoc(e, f, k);
    }
  }

  /** n derivative steps undo n antiderivative steps: the falling product from
      e+n equals the rising product from e. */
  lemma {:induction false} FallingRising(e: nat, n: nat)
    ensures Falling(e + n, n) == Rising(e, n)
  {
    if n > 0 {
      var m := n - 1;
      FallingRising(e, m);
      FallingFront(e + n, n);
      assert Falling(e + n, n) == (e + n) * Falling(e + m, m);
      assert Rising(e, n) == Rising(e, m) * (e + n);
    }
  }

  /** The calculus round trip on one term: differentiating n times what was
      integrated n times gives the term back. */
  lemma DeriveAntiderive(t: Term, n: nat)
    requires t != ZeroTerm && t.coef.Num?
    ensures Derive(Antiderive(t, n), n) == t
  {
    FallingRising(t.exp, n);
    var R := Rising(t.exp, n) as real;
    assert t.coef.r / R * R == t.coef.r;
  }
}

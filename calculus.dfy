/** Integration and differentiation of a polynomial (`Polynomial::operator<<`,
    `operator>>` and `integral()`): every term of the combined polynomial is
    shifted with the term operators; `<<` then adds the constant of
    integration C*x^0, while `>>` returns the shifted terms without combining
    them again. */
module Calculus {
  import opened Coefs
  import opened Terms
  import opened NormalForm

  /** Each term taken n antiderivative steps. */
  function MapAntiderive(s: seq<Term>, n: nat): (r: seq<Term>)
    ensures |r| == |s| && forall i :: 0 <= i < |s| ==> r[i] == Antiderive(s[i], n)
  {
    seq(|s|, i requires 0 <= i < |s| => Antiderive(s[i], n))
  }

  /** Each term taken n derivative steps. */
  function MapDerive(s: seq<Term>, n: nat): (r: seq<Term>)
    ensures |r| == |s| && forall i :: 0 <= i < |s| ==> r[i] == Derive(s[i], n)
  {
    seq(|s|, i requires 0 <= i < |s| => Derive(s[i], n))
  }

  /** `p << n`: the combined terms shifted up n exponents, then C*x^0 added with
      `addTerm`. */
  function IntegralSpec(a: seq<Term>, n: nat): (r: seq<Term>)
    ensures Normal(r) && 0 in Exps(r)
  {
    var s := MapAntiderive(Combined(a), n) + [Constant];
    ExpsAppend(MapAntiderive(Combined(a), n), [Constant]);
    assert Constant in s;
    Combined(s)
  }

  /** `p >> n`: the combined terms shifted down n exponents, not combined again. */
  function DeriveSpec(a: seq<Term>, n: nat): (r: seq<Term>)
    ensures |r| == |Combined(a)|
  {
    MapDerive(Combined(a), n)
  }

  // ---------------------------------------------------------------------------
  // Integration

  /** `p << 0` shifts nothing: every coefficient off x^0 is p's, and the x^0
      coefficient is the constant of integration, whatever p had there. */
  lemma IntegralNoSteps(a: seq<Term>)
    ensures Exps(IntegralSpec(a, 0)) == Exps(a) + {0}
    ensures Coeff(IntegralSpec(a, 0), 0) == Indet
    ensures forall e: nat :: e != 0 ==> Coeff(IntegralSpec(a, 0), e) == Coeff(a, e)
  {
    var c := Combined(a);
    var m := MapAntiderive(c, 0);
    ExpsAppend(m, [Constant]);
    assert Exps([Constant]) == {0} by {
      assert [Constant][0] == Constant;
    }
    UnshiftedExps(c);
    forall e: nat ensures Coeff(m + [Constant], e) == if e == 0 then Indet else Coeff(c, e) {
      CoeffAppend(m, [Constant], e);
      CoeffSingle(Constant, e);
      if e != 0 {
        NoStepsCoeff(c, e);
        AddZero(Coeff(m, e));
      }
    }
  }

  /** Zero antiderivative steps keep every exponent. */
  lemma UnshiftedExps(c: seq<Term>)
    ensures Exps(MapAntiderive(c, 0)) == Exps(c)
  {
    var m := MapAntiderive(c, 0);
    forall x | x in Exps(c) ensures x in Exps(m) {
      var i :| 0 <= i < |c| && c[i].exp == x;
      assert m[i].exp == x;
    }
  }

  /** Zero antiderivative steps keep every term off x^0. */
  lemma {:induction false} NoStepsCoeff(c: seq<Term>, e: nat)
    requires e != 0
    ensures Coeff(MapAntiderive(c, 0), e) == Coeff(c, e)
  {
    if c != [] {
      assert MapAntiderive(c, 0)[1..] == MapAntiderive(c[1..], 0);
      NoStepsCoeff(c[1..], e);
      if c[0].exp == e {
        assert Rising(e, 0) == 1;
      }
    }
  }

  /** Shifting a normal sequence up keeps it normal, with every exponent at least n. */
  lemma AntiderivedNormal(c: seq<Term>, n: nat)
    requires Normal(c)
    ensures Normal(MapAntiderive(c, n))
    ensures forall i :: 0 <= i < |c| ==> MapAntiderive(c, n)[i].exp == c[i].exp + n
  {
  }

  /** For n >= 1 the constant of integration does not meet any shifted term:
      `p << n` is exactly the shifted terms followed by C*x^0. */
  lemma IntegralShape(a: seq<Term>, n: nat)
    requires n >= 1
    ensures IntegralSpec(a, n) == MapAntiderive(Combined(a), n) + [Constant]
  {
    var m := MapAntiderive(Combined(a), n);
    AntiderivedNormal(Combined(a), n);
    SnocNormal(m, Constant);
    CombinedNormal(m + [Constant]);
  }

  /** Appending a term below every exponent keeps a sequence normal. */
  lemma SnocNormal(m: seq<Term>, t: Term)
    requires Normal(m) && forall i :: 0 <= i < |m| ==> m[i].exp > t.exp
    ensures Normal(m + [t])
  {
    var s := m + [t];
    forall i, j | 0 <= i < j < |s| ensures s[i].exp > s[j].exp {
      assert s[i] == m[i];
      if j < |m| {
        assert s[j] == m[j];
      }
    }
  }

  /** Every exponent of p, raised by n, is an exponent of `p << n` (n >= 1). */
  lemma IntegralExpsUp(a: seq<Term>, n: nat)
    requires n >= 1
    ensures forall e :: e in Exps(a) ==> e + n in Exps(IntegralSpec(a, n))
  {
    IntegralShape(a, n);
    ExpsAppend(MapAntiderive(Combined(a), n), [Constant]);
    forall e | e in Exps(a) ensures e + n in Exps(MapAntiderive(Combined(a), n)) {
      ShiftedExp(Combined(a), n, e);
    }
  }

  /** Every exponent of `p << n` (n >= 1) other than 0 is an exponent of p raised by n. */
  lemma IntegralExpsDown(a: seq<Term>, n: nat)
    requires n >= 1
    ensures forall x :: x in Exps(IntegralSpec(a, n)) ==> x == 0 || (x >= n && x - n in Exps(a))
  {
    var c := Combined(a);
    IntegralShape(a, n);
    ExpsAppend(MapAntiderive(c, n), [Constant]);
    assert Exps([Constant]) == {0} by {
      assert [Constant][0] == Constant;
    }
    forall x | x in Exps(MapAntiderive(c, n)) ensures x >= n && x - n in Exps(c) {
      UnshiftedExp(c, n, x);
    }
  }

  lemma ShiftedExp(c: seq<Term>, n: nat, e: nat)
    requires e in Exps(c)
    ensures e + n in Exps(MapAntiderive(c, n))
  {
    var i :| 0 <= i < |c| && c[i].exp == e;
    assert MapAntiderive(c, n)[i].exp == e + n;
  }

  lemma UnshiftedExp(c: seq<Term>, n: nat, x: nat)
    requires x in Exps(MapAntiderive(c, n))
    ensures x >= n && x - n in Exps(c)
  {
    var m := MapAntiderive(c, n);
    var i :| 0 <= i < |m| && m[i].exp == x;
    assert c[i].exp in Exps(c);
  }

  /** The coefficients of `p << n` (n >= 1): the coefficient of x^(e+n) is that
      of the term Coeff(p, e)*x^e taken n antiderivative steps, so over exact
      numbers it is the old coefficient divided by (e+1)...(e+n), and a zero
      constant term becomes the constant of integration. */
  lemma IntegralCoeff(a: seq<Term>, n: nat, e: nat)
    requires n >= 1 && e in Exps(a)
    ensures Coeff(IntegralSpec(a, n), e + n) == Antiderive(Term(Coeff(a, e), e), n).coef
  {
    var c := Combined(a);
    var i := ExpIndex(c, e);
    CoeffNormalAt(c, i);
    assert c[i] == Term(Coeff(a, e), e);
    IntegralCoeffAt(a, n, i);
  }

  /** Where an exponent occurs in a sequence. */
  lemma ExpIndex(s: seq<Term>, e: nat) returns (i: nat)
    requires e in Exps(s)
    ensures i < |s| && s[i].exp == e
  {
    i :| 0 <= i < |s| && s[i].exp == e;
  }

  lemma IntegralCoeffAt(a: seq<Term>, n: nat, i: nat)
    requires n >= 1 && i < |Combined(a)|
    ensures Coeff(IntegralSpec(a, n), Combined(a)[i].exp + n) == Antiderive(Combined(a)[i], n).coef
  {
    var r := IntegralSpec(a, n);
    IntegralShape(a, n);
    assert r[i] == Antiderive(Combined(a)[i], n);
    CoeffNormalAt(r, i);
  }

  // ---------------------------------------------------------------------------
  // Differentiation

  /** The coefficients of `p >> n`: the new coefficient of x^e is the old
      coefficient of x^(e+n) times (e+n)(e+n-1)...(e+1). Terms of degree below n
      become 0*x^0, which adds nothing, so the repeated exponents `>>` leaves
      behind do not disturb the sums. */
  lemma {:induction false} DeriveCoeff(s: seq<Term>, n: nat, e: nat)
    ensures Coeff(MapDerive(s, n), e) == Mul(Coeff(s, e + n), Num(Falling(e + n, n) as real))
  {
    var k := Num(Falling(e + n, n) as real);
    if s == [] {
      assert 0.0 * k.r == 0.0;
    } else {
      var t := s[0];
      assert MapDerive(s, n)[1..] == MapDerive(s[1..], n);
      DeriveCoeff(s[1..], n, e);
      MulAddRight(t.coef, Coeff(s[1..], e + n), k);
      if t.exp == e + n {
        assert Derive(t, n) == Term(Mul(t.coef, k), e);
      } else if t.exp < n {
        assert Derive(t, n) == ZeroTerm;
        if e == 0 {
          AddZero(Mul(Coeff(s[1..], e + n), k));
        }
      }
    }
  }

  /** `p >> n` read as a polynomial: its coefficients are those of the
      derivative of p. */
  lemma DeriveSpecCoeff(a: seq<Term>, n: nat)
    ensures forall e: nat :: Coeff(DeriveSpec(a, n), e) == Mul(Coeff(a, e + n), Num(Falling(e + n, n) as real))
  {
    forall e: nat ensures Coeff(DeriveSpec(a, n), e) == Mul(Coeff(a, e + n), Num(Falling(e + n, n) as real)) {
      DeriveCoeff(Combined(a), n, e);
    }
  }

  /** Differentiating n times what was integrated n times: every term comes
      back, except that a zero constant term (turned into the constant of
      integration) comes back indeterminate; the constant C*x^0 itself becomes
      a trailing 0*x^0 that `>>` does not combine away. */
  lemma DeriveIntegral(a: seq<Term>, n: nat)
    requires n >= 1 && AllNum(a)
    ensures |DeriveSpec(IntegralSpec(a, n), n)| == |Combined(a)| + 1
    ensures forall i :: 0 <= i < |Combined(a)| ==>
      DeriveSpec(IntegralSpec(a, n), n)[i] ==
        if Combined(a)[i] == ZeroTerm then Term(Indet, 0) else Combined(a)[i]
    ensures DeriveSpec(IntegralSpec(a, n), n)[|Combined(a)|] == ZeroTerm
  {
    var c := Combined(a);
    var r := IntegralSpec(a, n);
    IntegralShape(a, n);
    CombinedNormal(r);
    var d := DeriveSpec(r, n);
    forall i | 0 <= i < |c|
      ensures d[i] == if c[i] == ZeroTerm then Term(Indet, 0) else c[i]
    {
      assert d[i] == Derive(Antiderive(c[i], n), n);
      if c[i] != ZeroTerm {
        CoeffNormalAt(c, i);
        CoeffNum(a, c[i].exp);
        DeriveAntiderive(c[i], n);
      }
    }
    assert d[|c|] == Derive(Constant, n);
  }
}

/** The Euclidean algorithm of `Polynomial::operator&` (`gcd`) and the
    composition `operator|` (`lcm`).
    The loop keeps a pair (copy, c_other): while c_other's leading exponent is
    not 0, the pair becomes (c_other, copy % c_other), both put through
    zero_remove. Afterwards a nonzero constant c_other means the operands are
    coprime and the result is the constant 1; otherwise the result is copy
    scaled by the reciprocal of the second operand's first coefficient. */
module Euclid {
  import opened Coefs
  import opened Terms
  import opened NormalForm
  import opened Ring
  import opened LongDivision

  /** After zero_remove the leading coefficient is nonzero, unless the
      polynomial is a constant. */
  ghost predicate LeadOk(p: seq<Term>)
    requires p != []
  {
    LeadCoef(p) != Zero || Degree(p) == 0
  }

  /** What holds of (copy, c_other) at the head of every iteration: exact
      numbers, and a divisor whose leading coefficient after zero_remove is
      nonzero whenever the loop is about to divide by it. */
  ghost predicate Inv(x: seq<Term>, y: seq<Term>) {
    x != [] && y != [] && SortedDesc(y) && AllNum(x) && AllNum(y) &&
    LeadOk(x) && (y[0].exp != 0 ==> LeadCoef(y) != Zero)
  }

  /** What `&` needs of its operands over exact numbers: the first operand's
      leading coefficient after zero_remove is nonzero unless it is constant.
      The second operand is copied without combining, so it is taken as every
      operator leaves a polynomial, sorted by descending exponent; its leading
      coefficient after zero_remove is nonzero unless its first term is
      constant. */
  ghost predicate GcdReady(a: seq<Term>, b: seq<Term>) {
    a != [] && b != [] && AllNum(a) && AllNum(b) && SortedDesc(b) &&
    LeadOk(a) && (b[0].exp != 0 ==> LeadCoef(b) != Zero)
  }

  /** The loop of `&`, one iteration per call. */
  function Loop(x: seq<Term>, y: seq<Term>): (r: (seq<Term>, seq<Term>))
    requires Inv(x, y)
    ensures Inv(r.0, r.1) && r.1[0].exp == 0
    decreases y[0].exp
  {
    if y[0].exp == 0 then (x, y)
    else
      EuclidStep(x, y);
      Loop(ZeroRemoved(y), ZeroRemoved(ModSpec(x, y)))
  }

  /** `operator&`: loop from the combined first operand and a plain copy of
      the second; a nonzero constant at the end gives 1, otherwise the last
      nonzero remainder times 1 / other.terms[0].coef. */
  function GcdSpec(a: seq<Term>, b: seq<Term>): (r: seq<Term>)
    requires GcdReady(a, b)
    ensures Normal(r) && 0 in Exps(r)
  {
    GcdStart(a, b);
    var (x, y) := Loop(Combined(a), b);
    if y[0].coef != Zero then
      assert [Term(One, 0)][0].exp == 0;
      [Term(One, 0)]
    else TimesTermSpec(x, Term(Div(One, b[0].coef), 0))
  }

  /** `operator|`: (other * this) / (this & other), `this` combined first. */
  function LcmSpec(a: seq<Term>, b: seq<Term>): seq<Term>
    requires GcdReady(a, b)
  {
    GcdReadyCombined(a, b);
    var p := ProdSpec(b, Combined(a));
    var g := GcdSpec(Combined(a), b);
    ExpsEmpty(p);
    ExpsEmpty(g);
    QuotientSpec(p, g)
  }

  // ---------------------------------------------------------------------------
  // The loop invariant and the decreasing degree

  /** One iteration keeps the invariant and lowers c_other's leading exponent:
      the remainder's degree is below the divisor's, which is at most the
      divisor's leading exponent. */
  lemma EuclidStep(x: seq<Term>, y: seq<Term>)
    requires Inv(x, y) && y[0].exp != 0
    ensures Inv(ZeroRemoved(y), ZeroRemoved(ModSpec(x, y)))
    ensures ZeroRemoved(ModSpec(x, y))[0].exp < y[0].exp
  {
    ModDegree(x, y);
    SortedHeadIsMax(y);
    DegreeAtMostMax(y);
    ZeroRemovedIdempotent(y);
    ZeroRemovedNum(y);
    if Degree(x) >= Degree(y) {
      StepDivides(x, y);
    } else {
      StepKeeps(x, y);
    }
  }

  /** The remainder of a real division step is dense down to x^0, so after
      zero_remove it leads with a nonzero coefficient or is a constant. */
  lemma StepDivides(x: seq<Term>, y: seq<Term>)
    requires Inv(x, y) && y[0].exp != 0 && Degree(x) >= Degree(y)
    ensures AllNum(ZeroRemoved(ModSpec(x, y)))
    ensures ZeroRemoved(ModSpec(x, y))[0].exp != 0 ==> LeadCoef(ZeroRemoved(ModSpec(x, y))) != Zero
  {
    var m := ModSpec(x, y);
    var z := ZeroRemoved(m);
    ZeroRemovedIdempotent(m);
    RemainderBelowDivisor(x, y);
    DenseNormal(m, Degree(x));
    CombinedNormal(m);
    ZeroRemovedNum(m);
    if z[0].exp != 0 {
      assert |z| > 1 by {
        assert m[|m| - 1].exp == 0;
      }
    }
  }

  /** A dividend of lower degree comes back combined and becomes the divisor. */
  lemma StepKeeps(x: seq<Term>, y: seq<Term>)
    requires Inv(x, y) && y[0].exp != 0 && Degree(x) < Degree(y)
    ensures AllNum(ZeroRemoved(ModSpec(x, y)))
    ensures ZeroRemoved(ModSpec(x, y))[0].exp != 0 ==> LeadCoef(ZeroRemoved(ModSpec(x, y))) != Zero
  {
    var m := ModSpec(x, y);
    ZeroRemovedIdempotent(m);
    ZeroRemovedIdempotent(x);
    CombinedNum(x);
    ZeroRemovedNum(m);
  }

  /** The loop starts from the combined operands. */
  lemma GcdStart(a: seq<Term>, b: seq<Term>)
    requires GcdReady(a, b)
    ensures Inv(Combined(a), b)
  {
    ZeroRemovedIdempotent(a);
    CombinedNum(a);
  }

  lemma GcdReadyCombined(a: seq<Term>, b: seq<Term>)
    requires GcdReady(a, b)
    ensures GcdReady(Combined(a), b)
  {
    ZeroRemovedIdempotent(a);
    CombinedNum(a);
  }

  /** The head of a nonempty sequence is one of its exponents. */
  lemma ExpAt(s: seq<Term>, i: nat) returns (e: nat)
    requires i < |s|
    ensures e == s[i].exp && e in Exps(s)
  {
    e := s[i].exp;
  }

  lemma CombinedNum(s: seq<Term>)
    requires AllNum(s)
    ensures AllNum(Combined(s))
  {
    forall e ensures Coeff(Combined(s), e).Num? {
      CoeffNum(s, e);
    }
    NumFromCoeff(Combined(s));
  }

  lemma ZeroRemovedNum(s: seq<Term>)
    requires s != [] && AllNum(s)
    ensures AllNum(ZeroRemoved(s))
  {
    forall e ensures Coeff(ZeroRemoved(s), e).Num? {
      CoeffNum(s, e);
    }
    NumFromCoeff(ZeroRemoved(s));
  }

  // ---------------------------------------------------------------------------
  // Two cases with a known answer

  /** A second operand that is a nonzero constant stops the loop at once:
      the result is the constant 1. */
  lemma GcdUnit(a: seq<Term>, b: seq<Term>)
    requires GcdReady(a, b) && b[0].exp == 0 && b[0].coef != Zero
    ensures GcdSpec(a, b) == [Term(One, 0)]
  {
    GcdStart(a, b);
  }

  /** The greatest common divisor of a polynomial with itself (as zero_remove
      leaves it, of positive degree) is that polynomial scaled so that its
      leading coefficient is 1: one division leaves remainder zero. */
  lemma GcdSelf(p: seq<Term>)
    requires p != [] && AllNum(p) && ZeroRemoved(p) == p
    requires p[0].exp > 0 && p[0].coef != Zero
    ensures GcdReady(p, p)
    ensures GcdSpec(p, p) == TimesTermSpec(p, Term(Div(One, p[0].coef), 0))
    ensures Coeff(GcdSpec(p, p), p[0].exp) == One
  {
    assert Normal(p);
    CombinedNormal(p);
    DegreeAtMostMax(p);
    MaxExpNormal(p);
    GcdStart(p, p);
    ModSelf(p);
    assert Loop(p, p) == Loop(p, [ZeroTerm]);
    ScaledLead(p);
  }

  /** Scaling by the reciprocal of the leading coefficient makes it 1. */
  lemma ScaledLead(p: seq<Term>)
    requires p != [] && Normal(p) && p[0].coef.Num? && p[0].coef != Zero
    ensures Coeff(TimesTermSpec(p, Term(Div(One, p[0].coef), 0)), p[0].exp) == One
  {
    var k := Div(One, p[0].coef);
    var e := p[0].exp;
    CoeffNormalAt(p, 0);
    assert e in Exps(p);
    TimesTermAt(p, Term(k, 0), e);
    MulReciprocal(p[0].coef);
  }

  /** p % p leaves nothing: after zero_remove it is the zero polynomial. */
  lemma ModSelf(p: seq<Term>)
    requires p != [] && AllNum(p) && LeadCoef(p) != Zero
    ensures ZeroRemoved(ModSpec(p, p)) == [ZeroTerm]
  {
    var m := ModSpec(p, p);
    RemainderBelowDivisor(p, p);
    DivisionIdentity(p, p);
    QuotientSelf(p);
    forall e: nat ensures Coeff(m, e) == Zero {
      if e < Degree(p) {
        assert PolyConv([Term(One, 0)], p, e) == Re(Coeff(p, e)) by {
          assert [Term(One, 0)][..0] == [];
        }
        CoeffNum(m, e);
      }
    }
    assert m[|m| - 1].exp == 0;
    var h := ExpAt(m, |m| - 1);
    AllZeroRemoved(m);
  }

  /** p / p is the constant 1: the single elimination step divides the leading
      coefficient by itself. */
  lemma QuotientSelf(p: seq<Term>)
    requires p != [] && AllNum(p) && LeadCoef(p) != Zero
    ensures QuotientSpec(p, p) == [Term(One, 0)]
  {
    SpecsAreRun(p, p);
    var z := ZeroRemoved(p);
    var w := Filled(z);
    ZeroRemovedNum(p);
    MaxExpNormal(z);
    CoeffNormalAt(z, 0);
    assert w[0].coef == LeadCoef(p);
    RunFirst(p, p);
    var L := LeadCoef(p).r;
    assert L / L == 1.0;
    assert Run(p, p).quot == [One];
  }
}

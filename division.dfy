/** Polynomial long division (`operator/` and `operator%`).
    Both operands are put through zero_remove, their degrees give the shift
    exp_max, both are padded with fill, and exp_max+1 elimination steps run on
    the padded dividend: step `shift` takes val = dividend[shift] / divisor[0],
    records val*x^(exp_max - shift) in the quotient and subtracts val times the
    divisor, aligned at index `shift`, from the dividend. */
module LongDivision {
  import opened Coefs
  import opened Terms
  import opened NormalForm

  /** One elimination step: subtract val times b from w, b aligned at index shift. */
  function Eliminate(w: seq<Term>, b: seq<Term>, shift: nat, val: Coef): (r: seq<Term>)
    requires shift + |b| <= |w|
    ensures |r| == |w|
    ensures forall k :: 0 <= k < |w| ==> r[k].exp == w[k].exp
    ensures forall k :: 0 <= k < |w| && !(shift <= k < shift + |b|) ==> r[k] == w[k]
    ensures forall k :: shift <= k < shift + |b| ==> r[k].coef == Sub(w[k].coef, Mul(b[k - shift].coef, val))
  {
    seq(|w|, k requires 0 <= k < |w| =>
      if shift <= k < shift + |b| then Term(Sub(w[k].coef, Mul(b[k - shift].coef, val)), w[k].exp)
      else w[k])
  }

  datatype DivState = DivState(rem: seq<Term>, quot: seq<Coef>)

  /** The working dividend and the quotient coefficients after n elimination steps. */
  function Steps(w: seq<Term>, b: seq<Term>, n: nat): (st: DivState)
    requires |b| > 0 && n + |b| <= |w| + 1
    ensures |st.rem| == |w| && |st.quot| == n
    ensures forall k :: 0 <= k < |w| ==> st.rem[k].exp == w[k].exp
  {
    if n == 0 then DivState(w, [])
    else
      var st := Steps(w, b, n - 1);
      var val := Div(st.rem[n - 1].coef, b[0].coef);
      DivState(Eliminate(st.rem, b, n - 1, val), st.quot + [val])
  }

  /** The quotient terms val_t * x^(em - t). */
  function QTerms(q: seq<Coef>, em: nat): (r: seq<Term>)
    requires |q| <= em + 1
    ensures |r| == |q| && forall t :: 0 <= t < |q| ==> r[t] == Term(q[t], em - t)
  {
    seq(|q|, t requires 0 <= t < |q| => Term(q[t], em - t))
  }

  /** The coefficient at index i of a padded array, zero outside it, in reals. */
  function CoefAt(s: seq<Term>, i: int): real {
    if 0 <= i < |s| then Re(s[i].coef) else 0.0
  }

  /** The divisor times the quotient, at index k of the padded arrays, in reals. */
  function DenseConv(q: seq<Coef>, b: seq<Term>, k: int): real
    decreases |q|
  {
    if q == [] then 0.0
    else
      var t := |q| - 1;
      DenseConv(q[..t], b, k) + Re(q[t]) * CoefAt(b, k - t)
  }

  /** The coefficient of x^(e - x) in b, in reals, zero when x > e. */
  function Below(b: seq<Term>, e: nat, x: nat): real {
    if x <= e then Re(Coeff(b, e - x)) else 0.0
  }

  /** The coefficient of x^e in the product of q and b, in reals. */
  function PolyConv(q: seq<Term>, b: seq<Term>, e: nat): real
    decreases |q|
  {
    if q == [] then 0.0
    else
      var x := q[|q| - 1];
      PolyConv(q[..|q| - 1], b, e) + Re(x.coef) * Below(b, e, x.exp)
  }

  // ---------------------------------------------------------------------------
  // The operators

  lemma MaxExpNormal(s: seq<Term>)
    requires Normal(s) && s != []
    ensures MaxExp(s) == s[0].exp
  {
    assert MaxExp(s) in Exps(s);
  }

  /** The padded operands, as `/` and `%` prepare them: each is put through
      zero_remove (which combines first, so combining the dividend beforehand
      changes nothing) and then through fill. */
  lemma Setup(a: seq<Term>, b: seq<Term>)
    requires a != [] && b != []
    ensures |Filled(ZeroRemoved(a))| == Degree(a) + 1
    ensures |Filled(ZeroRemoved(b))| == Degree(b) + 1
  {
    MaxExpNormal(ZeroRemoved(a));
    MaxExpNormal(ZeroRemoved(b));
  }

  /** The exp_max + 1 elimination steps, exp_max = Degree(a) - Degree(b). */
  function Run(a: seq<Term>, b: seq<Term>): (st: DivState)
    requires a != [] && b != [] && Degree(b) <= Degree(a)
    ensures |st.quot| == Degree(a) - Degree(b) + 1
    ensures |st.rem| == Degree(a) + 1
    ensures forall k :: 0 <= k < |st.rem| ==> st.rem[k].exp == Degree(a) - k
  {
    Setup(a, b);
    Steps(Filled(ZeroRemoved(a)), Filled(ZeroRemoved(b)), Degree(a) - Degree(b) + 1)
  }

  /** `operator/`: the zero polynomial when the divisor's degree exceeds the
      dividend's, otherwise one quotient term for each exponent exp_max..0. */
  function QuotientSpec(a: seq<Term>, b: seq<Term>): (r: seq<Term>)
    requires a != [] && b != []
    ensures Degree(a) < Degree(b) ==> r == [ZeroTerm]
    ensures Degree(a) >= Degree(b) ==>
      |r| == Degree(a) - Degree(b) + 1 &&
      forall k :: 0 <= k < |r| ==> r[k].exp == Degree(a) - Degree(b) - k
  {
    if Degree(a) < Degree(b) then [ZeroTerm]
    else
      var em := Degree(a) - Degree(b);
      QuotientDense(Run(a, b).quot);
      Combined([ZeroTerm] + QTerms(Run(a, b).quot, em))
  }

  /** `operator%`: the dividend itself (combined) when the divisor's degree
      exceeds the dividend's, otherwise the reduced padded dividend. */
  function ModSpec(a: seq<Term>, b: seq<Term>): (r: seq<Term>)
    requires a != [] && b != []
    ensures Degree(a) < Degree(b) ==> r == Combined(a)
    ensures Degree(a) >= Degree(b) ==>
      |r| == Degree(a) + 1 && forall k :: 0 <= k < |r| ==> r[k].exp == Degree(a) - k
  {
    if Degree(a) < Degree(b) then Combined(a) else Run(a, b).rem
  }

  /** `Run` names the padded operands and the step count. */
  lemma RunIsSteps(a: seq<Term>, b: seq<Term>, w: seq<Term>, v: seq<Term>, n: nat)
    requires a != [] && b != [] && Degree(b) <= Degree(a)
    requires w == Filled(ZeroRemoved(a)) && v == Filled(ZeroRemoved(b)) && n == Degree(a) - Degree(b) + 1
    ensures |v| > 0 && n + |v| <= |w| + 1
    ensures Run(a, b) == Steps(w, v, n)
  {
    Setup(a, b);
    var d := Degree(a) - Degree(b) + 1;
    assert Run(a, b) == Steps(Filled(ZeroRemoved(a)), Filled(ZeroRemoved(b)), d);
  }

  /** The first quotient coefficient is the dividend's leading entry over the
      divisor's. */
  lemma {:induction false} StepsFirst(w: seq<Term>, b: seq<Term>, n: nat)
    requires |b| > 0 && 1 <= n && n + |b| <= |w| + 1
    ensures Steps(w, b, n).quot[0] == Div(w[0].coef, b[0].coef)
  {
    if n > 1 {
      StepsFirst(w, b, n - 1);
    }
  }

  lemma RunFirst(a: seq<Term>, b: seq<Term>)
    requires a != [] && b != [] && Degree(b) <= Degree(a)
    ensures Run(a, b).quot[0] == Div(Filled(ZeroRemoved(a))[0].coef, Filled(ZeroRemoved(b))[0].coef)
  {
    var w, v := Filled(ZeroRemoved(a)), Filled(ZeroRemoved(b));
    var n := Degree(a) - Degree(b) + 1;
    RunIsSteps(a, b, w, v, n);
    StepsFirst(w, v, n);
  }

  /** Adding the quotient terms to the default polynomial {0*x^0} one by one
      gives exactly those terms: exponents em..0, no duplicate. */
  lemma QuotientDense(q: seq<Coef>)
    ensures forall em: nat {:trigger QTerms(q, em)} :: |q| == em + 1 ==>
      Combined([ZeroTerm] + QTerms(q, em)) == QTerms(q, em)
  {
    if q != [] {
      QuotientDenseAt(q, |q| - 1);
    }
  }

  lemma QuotientDenseAt(q: seq<Coef>, em: nat)
    requires |q| == em + 1
    ensures Combined([ZeroTerm] + QTerms(q, em)) == QTerms(q, em)
  {
    var Q := QTerms(q, em);
    assert Normal(Q);
    ExpsCons(ZeroTerm, Q);
    assert Q[em].exp == 0;
    assert 0 in Exps(Q);
    forall e: nat ensures Coeff([ZeroTerm] + Q, e) == Coeff(Q, e) {
      CoeffAppend([ZeroTerm], Q, e);
      CoeffSingle(ZeroTerm, e);
      AddZero(Coeff(Q, e));
    }
    CombinedCongruent([ZeroTerm] + Q, Q);
    CombinedNormal(Q);
  }

  lemma QTermsSnoc(q: seq<Coef>, v: Coef, em: nat)
    requires |q| + 1 <= em + 1
    ensures QTerms(q + [v], em) == QTerms(q, em) + [Term(v, em - |q|)]
  {
  }

  // ---------------------------------------------------------------------------
  // Exact arithmetic

  lemma DenseConvSnoc(q: seq<Coef>, v: Coef, b: seq<Term>, k: int)
    ensures DenseConv(q + [v], b, k) ==
      DenseConv(q, b, k) + Re(v) * CoefAt(b, k - |q|)
  {
    assert (q + [v])[..|q|] == q;
  }

  /** One step over exact numbers keeps every coefficient a number and zeroes
      the entry it eliminates. */
  lemma StepZeroes(rem: seq<Term>, b: seq<Term>, s: nat)
    requires |b| > 0 && s + |b| <= |rem|
    requires AllNum(rem) && AllNum(b) && b[0].coef != Zero
    ensures Div(rem[s].coef, b[0].coef).Num?
    ensures AllNum(Eliminate(rem, b, s, Div(rem[s].coef, b[0].coef)))
    ensures Eliminate(rem, b, s, Div(rem[s].coef, b[0].coef))[s].coef == Zero
  {
    var x, b0 := rem[s].coef.r, b[0].coef.r;
    assert b0 * (x / b0) == x;
  }

  /** One entry of an elimination step, in reals. */
  lemma EliminateAt(rem: seq<Term>, b: seq<Term>, s: nat, val: Coef, k: nat)
    requires s + |b| <= |rem| && k < |rem|
    requires AllNum(rem) && AllNum(b) && val.Num?
    ensures Re(Eliminate(rem, b, s, val)[k].coef) ==
      Re(rem[k].coef) - Re(val) * CoefAt(b, k - s)
  {
  }

  /** One step moves val times the divisor from the working array to the product. */
  lemma {:induction false} StepKeepsSum(rem: seq<Term>, q: seq<Coef>, b: seq<Term>, val: Coef, k: nat)
    requires |q| + |b| <= |rem| && k < |rem|
    requires AllNum(rem) && AllNum(b) && val.Num?
    ensures Re(rem[k].coef) + DenseConv(q, b, k) ==
      Re(Eliminate(rem, b, |q|, val)[k].coef) + DenseConv(q + [val], b, k)
  {
    DenseConvSnoc(q, val, b, k);
    EliminateAt(rem, b, |q|, val, k);
  }

  /** Over exact numbers every step zeroes the entry it eliminates, and the padded
      dividend stays equal, entry by entry, to the working array plus the divisor
      times the quotient so far. */
  lemma {:induction false} StepsExact(w: seq<Term>, b: seq<Term>, n: nat)
    requires |b| > 0 && n + |b| <= |w| + 1
    requires AllNum(w) && AllNum(b) && b[0].coef != Zero
    ensures AllNum(Steps(w, b, n).rem)
    ensures forall t :: 0 <= t < n ==> Steps(w, b, n).quot[t].Num?
    ensures forall k :: 0 <= k < n ==> Steps(w, b, n).rem[k].coef == Zero
    ensures forall k :: 0 <= k < |w| ==>
      Re(w[k].coef) == Re(Steps(w, b, n).rem[k].coef) + DenseConv(Steps(w, b, n).quot, b, k)
  {
    StepsShape(w, b, n);
    if n > 0 {
      StepsExact(w, b, n - 1);
      var st := Steps(w, b, n - 1);
      var val := Div(st.rem[n - 1].coef, b[0].coef);
      assert Steps(w, b, n) == DivState(Eliminate(st.rem, b, |st.quot|, val), st.quot + [val]);
      StepZeroes(st.rem, b, n - 1);
      StepKeepsSums(w, st.rem, st.quot, b, val);
    }
  }

  /** StepKeepsSum at every index. */
  lemma StepKeepsSums(w: seq<Term>, rem: seq<Term>, q: seq<Coef>, b: seq<Term>, val: Coef)
    requires |q| + |b| <= |rem| && |rem| == |w|
    requires AllNum(rem) && AllNum(b) && val.Num?
    requires forall k :: 0 <= k < |w| ==> Re(w[k].coef) == Re(rem[k].coef) + DenseConv(q, b, k)
    ensures forall k :: 0 <= k < |w| ==>
      Re(w[k].coef) == Re(Eliminate(rem, b, |q|, val)[k].coef) + DenseConv(q + [val], b, k)
  {
    forall k | 0 <= k < |w|
      ensures Re(w[k].coef) == Re(Eliminate(rem, b, |q|, val)[k].coef) + DenseConv(q + [val], b, k)
    {
      StepKeepsSum(rem, q, b, val, k);
    }
  }

  /** The first three properties of StepsExact: exact entries, and zeros where
      a step has eliminated. */
  lemma {:induction false} StepsShape(w: seq<Term>, b: seq<Term>, n: nat)
    requires |b| > 0 && n + |b| <= |w| + 1
    requires AllNum(w) && AllNum(b) && b[0].coef != Zero
    ensures AllNum(Steps(w, b, n).rem)
    ensures forall t :: 0 <= t < n ==> Steps(w, b, n).quot[t].Num?
    ensures forall k :: 0 <= k < n ==> Steps(w, b, n).rem[k].coef == Zero
  {
    if n > 0 {
      StepsShape(w, b, n - 1);
      var st := Steps(w, b, n - 1);
      var s := n - 1;
      var val := Div(st.rem[s].coef, b[0].coef);
      assert Steps(w, b, n) == DivState(Eliminate(st.rem, b, s, val), st.quot + [val]);
      StepZeroes(st.rem, b, s);
    }
  }

  lemma {:induction false} CoeffAboveDegree(s: seq<Term>, e: nat)
    requires s != [] && e > Degree(s)
    ensures Coeff(s, e) == Zero
  {
    var z := ZeroRemoved(s);
    NormalHeadIsMax(z);
    CoeffAbsent(z, e);
  }

  /** Reading b's coefficients off its padded form: index j of the padded form
      holds the coefficient of x^(e - x) when j = x + Degree(b) - e. */
  lemma PadAt(b: seq<Term>, e: nat, x: nat, j: int)
    requires b != [] && j == x + Degree(b) - e
    ensures Below(b, e, x) == CoefAt(Filled(ZeroRemoved(b)), j)
  {
    var f := Filled(ZeroRemoved(b));
    Padded(b);
    if x <= e {
      var y: nat := e - x;
      if y > Degree(b) {
        CoeffAboveDegree(b, y);
        assert j < 0;
      } else {
        assert j == Degree(b) - y;
        assert f[j].coef == Coeff(b, y);
      }
    } else {
      assert j >= |f|;
    }
  }

  /** The dense product of the quotient coefficients with the padded divisor is
      the product of the quotient polynomial with the divisor. */
  lemma DenseIsPoly(q: seq<Coef>, b: seq<Term>, e: nat)
    requires b != []
    ensures forall em: nat, k: int
      {:trigger PolyConv(QTerms(q, em), b, e), DenseConv(q, Filled(ZeroRemoved(b)), k)} ::
      |q| <= em + 1 && k == em + Degree(b) - e ==>
      PolyConv(QTerms(q, em), b, e) == DenseConv(q, Filled(ZeroRemoved(b)), k)
  {
    forall em: nat, k: int | |q| <= em + 1 && k == em + Degree(b) - e
      ensures PolyConv(QTerms(q, em), b, e) == DenseConv(q, Filled(ZeroRemoved(b)), k)
    {
      DenseIsPolyAt(q, em, b, e, k);
    }
  }

  lemma DenseIsPolyAt(q: seq<Coef>, em: nat, b: seq<Term>, e: nat, k: int)
    requires b != [] && |q| <= em + 1 && k == em + Degree(b) - e
    ensures PolyConv(QTerms(q, em), b, e) == DenseConv(q, Filled(ZeroRemoved(b)), k)
  {
    var fb, d2 := Filled(ZeroRemoved(b)), Degree(b);
    forall x: nat ensures Below(b, e, x) == CoefAt(fb, x + d2 - e) {
      PadAt(b, e, x, x + d2 - e);
    }
    ConvAgree(q, em, b, e, fb, d2);
  }

  lemma {:induction false} ConvAgree(q: seq<Coef>, em: nat, b: seq<Term>, e: nat, fb: seq<Term>, d2: nat)
    requires |q| <= em + 1
    requires forall x: nat :: Below(b, e, x) == CoefAt(fb, x + d2 - e)
    ensures PolyConv(QTerms(q, em), b, e) == DenseConv(q, fb, em + d2 - e)
    decreases |q|
  {
    if q != [] {
      var t := |q| - 1;
      var Q, K := QTerms(q, em), em + d2 - e;
      assert Q[..t] == QTerms(q[..t], em);
      ConvAgree(q[..t], em, b, e, fb, d2);
      var f := Below(b, e, em - t);
      assert f == CoefAt(fb, K - t);
      assert Q[t] == Term(q[t], em - t);
      assert PolyConv(Q, b, e) == PolyConv(Q[..t], b, e) + Re(q[t]) * f;
    }
  }

  /** The padded form of a polynomial: one entry per exponent Degree..0, holding
      that exponent's coefficient, the first being the leading coefficient. */
  lemma {:induction false} Padded(a: seq<Term>)
    requires a != []
    ensures |Filled(ZeroRemoved(a))| == Degree(a) + 1
    ensures forall k :: 0 <= k < |Filled(ZeroRemoved(a))| ==>
      Filled(ZeroRemoved(a))[k].coef == Coeff(a, Degree(a) - k)
    ensures Filled(ZeroRemoved(a))[0].coef == LeadCoef(a)
    ensures AllNum(a) ==> AllNum(Filled(ZeroRemoved(a)))
  {
    var z := ZeroRemoved(a);
    var f := Filled(z);
    MaxExpNormal(z);
    CoeffNormalAt(z, 0);
    forall k | 0 <= k < |f| ensures f[k].coef == Coeff(a, Degree(a) - k) {
      assert f[k].coef == Coeff(z, Degree(a) - k);
    }
    if AllNum(a) {
      forall k | 0 <= k < |f| ensures f[k].coef.Num? {
        CoeffNum(a, Degree(a) - k);
      }
    }
  }

  /** The elimination loop of `/` and `%` over exact numbers, on the padded
      operands: every coefficient stays a number, ... */
  lemma {:induction false} RunNum(a: seq<Term>, b: seq<Term>)
    requires a != [] && b != [] && AllNum(a) && AllNum(b)
    requires LeadCoef(b) != Zero && Degree(b) <= Degree(a)
    ensures AllNum(Run(a, b).rem)
    ensures forall t :: 0 <= t < |Run(a, b).quot| ==> Run(a, b).quot[t].Num?
  {
    Padded(a);
    Padded(b);
    StepsExact(Filled(ZeroRemoved(a)), Filled(ZeroRemoved(b)), Degree(a) - Degree(b) + 1);
  }

  /** ... the first exp_max + 1 entries of the working dividend are eliminated, ... */
  lemma {:induction false} RunZeroes(a: seq<Term>, b: seq<Term>)
    requires a != [] && b != [] && AllNum(a) && AllNum(b)
    requires LeadCoef(b) != Zero && Degree(b) <= Degree(a)
    ensures forall k :: 0 <= k < |Run(a, b).quot| ==> Run(a, b).rem[k].coef == Zero
  {
    Padded(a);
    Padded(b);
    StepsExact(Filled(ZeroRemoved(a)), Filled(ZeroRemoved(b)), Degree(a) - Degree(b) + 1);
  }

  /** ... and each dividend coefficient is the working entry plus the divisor
      times the quotient at that index. */
  lemma {:induction false} RunSum(a: seq<Term>, b: seq<Term>, e: nat)
    requires a != [] && b != [] && AllNum(a) && AllNum(b)
    requires LeadCoef(b) != Zero && Degree(b) <= Degree(a) && e <= Degree(a)
    ensures Re(Coeff(a, e)) == Re(Run(a, b).rem[Degree(a) - e].coef) +
      DenseConv(Run(a, b).quot, Filled(ZeroRemoved(b)), Degree(a) - e)
  {
    var fa, fb := Filled(ZeroRemoved(a)), Filled(ZeroRemoved(b));
    Padded(a);
    Padded(b);
    StepsExact(fa, fb, Degree(a) - Degree(b) + 1);
    assert fa[Degree(a) - e].coef == Coeff(a, e);
  }

  /** A dense array, one entry per exponent d..0, is in normal form. */
  lemma DenseNormal(m: seq<Term>, d: nat)
    requires |m| == d + 1 && forall k :: 0 <= k < |m| ==> m[k].exp == d - k
    ensures Normal(m)
  {
    forall i, j | 0 <= i < j < |m| ensures m[i].exp > m[j].exp { }
  }

  /** A dense array whose entries for exponents d1..d2 are zero has a zero
      coefficient at every exponent from d2 up. */
  lemma {:induction false} ZeroFrom(m: seq<Term>, d1: nat, d2: nat)
    requires |m| == d1 + 1 && d2 <= d1
    requires forall k :: 0 <= k < |m| ==> m[k].exp == d1 - k
    requires forall k :: 0 <= k <= d1 - d2 ==> m[k].coef == Zero
    ensures forall e: nat :: e >= d2 ==> Coeff(m, e) == Zero
  {
    DenseNormal(m, d1);
    forall e: nat | e >= d2 ensures Coeff(m, e) == Zero {
      if e <= d1 {
        CoeffNormalAt(m, d1 - e);
      } else {
        CoeffAbsent(m, e);
      }
    }
  }

  /** Long division over exact numbers: the remainder has no term of degree at or
      above the divisor's. */
  lemma {:induction false} RemainderBelowDivisor(a: seq<Term>, b: seq<Term>)
    requires a != [] && b != [] && AllNum(a) && AllNum(b)
    requires LeadCoef(b) != Zero && Degree(b) <= Degree(a)
    ensures AllNum(ModSpec(a, b))
    ensures forall e: nat :: e >= Degree(b) ==> Coeff(ModSpec(a, b), e) == Zero
  {
    RunNum(a, b);
    RunZeroes(a, b);
    ZeroFrom(Run(a, b).rem, Degree(a), Degree(b));
  }

  /** Long division over exact numbers: dividend = divisor * quotient + remainder,
      coefficient by coefficient, and the quotient is exact numbers. */
  lemma {:induction false} DivisionIdentity(a: seq<Term>, b: seq<Term>)
    requires a != [] && b != [] && AllNum(a) && AllNum(b)
    requires LeadCoef(b) != Zero && Degree(b) <= Degree(a)
    ensures AllNum(QuotientSpec(a, b))
    ensures forall e: nat :: e <= Degree(a) ==>
      Re(Coeff(a, e)) == Re(Coeff(ModSpec(a, b), e)) + PolyConv(QuotientSpec(a, b), b, e)
  {
    RunNum(a, b);
    SpecsAreRun(a, b);
    forall e: nat | e <= Degree(a)
      ensures Re(Coeff(a, e)) == Re(Coeff(Run(a, b).rem, e)) +
        PolyConv(QTerms(Run(a, b).quot, Degree(a) - Degree(b)), b, e)
    {
      IdentityAt(a, b, e);
    }
  }

  /** With the divisor's degree at most the dividend's, `/` and `%` return the
      quotient terms and the reduced padded dividend. */
  lemma SpecsAreRun(a: seq<Term>, b: seq<Term>)
    requires a != [] && b != [] && Degree(b) <= Degree(a)
    ensures QuotientSpec(a, b) == QTerms(Run(a, b).quot, Degree(a) - Degree(b))
    ensures ModSpec(a, b) == Run(a, b).rem
  {
    QuotientDense(Run(a, b).quot);
  }

  /** The identity at one exponent. */
  lemma {:induction false} IdentityAt(a: seq<Term>, b: seq<Term>, e: nat)
    requires a != [] && b != [] && AllNum(a) && AllNum(b)
    requires LeadCoef(b) != Zero && Degree(b) <= Degree(a) && e <= Degree(a)
    ensures Re(Coeff(a, e)) == Re(Coeff(Run(a, b).rem, e)) +
      PolyConv(QTerms(Run(a, b).quot, Degree(a) - Degree(b)), b, e)
  {
    RunSum(a, b, e);
    DenseCoeff(Run(a, b).rem, Degree(a));
    DenseIsPoly(Run(a, b).quot, b, e);
  }

  /** The coefficient of x^e in a dense array is its entry d - e. */
  lemma DenseCoeff(m: seq<Term>, d: nat)
    requires |m| == d + 1 && forall k :: 0 <= k < |m| ==> m[k].exp == d - k
    ensures forall e: nat, k: int {:trigger Coeff(m, e), m[k]} ::
      0 <= k < |m| && k == d - e ==> Coeff(m, e) == m[k].coef
  {
    DenseNormal(m, d);
    forall e: nat, k: int | 0 <= k < |m| && k == d - e
      ensures Coeff(m, e) == m[k].coef
    {
      CoeffNormalAt(m, k);
    }
  }

  lemma {:induction false} ModDegree(a: seq<Term>, b: seq<Term>)
    requires a != [] && b != [] && AllNum(a) && AllNum(b) && LeadCoef(b) != Zero
    ensures ZeroRemoved(ModSpec(a, b))[0].exp < Degree(b) || ZeroRemoved(ModSpec(a, b)) == [ZeroTerm]
  {
    if Degree(a) >= Degree(b) {
      RemainderBelowDivisor(a, b);
      var m := ModSpec(a, b);
      DenseNormal(m, Degree(a));
      LeadBelow(m, Degree(b));
    } else {
      ZeroRemovedIdempotent(a);
    }
  }

  /** A normal polynomial whose constant term is present and whose coefficients
      vanish from exponent d up keeps, after zero_remove, a leading exponent
      below d, unless it is the zero polynomial 0*x^0. */
  lemma {:induction false} LeadBelow(m: seq<Term>, d: nat)
    requires m != [] && Normal(m) && m[|m| - 1].exp == 0
    requires forall e: nat :: e >= d ==> Coeff(m, e) == Zero
    ensures ZeroRemoved(m)[0].exp < d || ZeroRemoved(m) == [ZeroTerm]
  {
    var z := ZeroRemoved(m);
    if |z| > 1 {
      LeadCoeffNonzero(m);
    } else {
      LastTermKept(m);
      if d == 0 {
        CoeffNormalAt(m, |m| - 1);
      }
    }
  }

  /** zero_remove of a normal polynomial keeps its last term. */
  lemma LastTermKept(m: seq<Term>)
    requires m != [] && Normal(m)
    ensures ZeroRemoved(m)[|ZeroRemoved(m)| - 1] == m[|m| - 1]
  {
    CombinedNormal(m);
  }
}

/** The `Polynomial` class: a vector of terms that its methods update in place.
    Every operator builds a fresh result object, and each is proved to leave in
    it exactly the sequence described by the matching function of `Ring`,
    `LongDivision`, `Calculus` or `Euclid`. */
module Polynomials {
  import opened Coefs
  import opened Terms
  import opened NormalForm
  import opened Ring
  import opened LongDivision
  import opened Calculus
  import opened Euclid

  class Polynomial {
    var terms: seq<Term>

    /** `Polynomial(std::vector<Term>)`: store the terms and combine them. The
        default argument {Term()} is written `new Polynomial([ZeroTerm])`. */
    constructor (ts: seq<Term>)
      ensures terms == Combined(ts)
    {
      terms := ts;
      new;
      Combine();
    }

    /** `Polynomial(Term)`: a single term, not combined. */
    constructor Single(t: Term)
      ensures terms == [t]
    {
      terms := [t];
    }

    /** The implicit copy constructor: the terms as they are. */
    constructor Copy(other: Polynomial)
      ensures terms == other.terms
    {
      terms := other.terms;
    }

    /** `combine`: sort by descending exponent, then add each term whose
        exponent equals its predecessor's into the predecessor and erase it. */
    method Combine()
      modifies this
      ensures terms == Combined(old(terms))
    {
      terms := SortByExp(terms);
      ghost var sorted := terms;
      var i := 1;
      while i < |terms|
        invariant 1 <= i && (sorted == [] <==> terms == [])
        invariant sorted != [] ==> i <= |terms| && terms[..i - 1] + Merged(terms[i - 1..]) == Merged(sorted)
        decreases |terms| - i
      {
        if terms[i].exp != terms[i - 1].exp {
          MergeKeep(terms, i);
          i := i + 1;
        } else {
          MergeFuse(terms, i);
          terms := terms[i - 1 := Term(Add(terms[i - 1].coef, terms[i].coef), terms[i - 1].exp)];
          terms := terms[..i] + terms[i + 1..];
        }
      }
      if sorted != [] {
        MergeDone(terms);
      }
    }

    /** `zero_remove`: combine, then erase every zero term except the last. */
    method ZeroRemove()
      requires terms != []
      modifies this
      ensures terms == ZeroRemoved(old(terms))
    {
      Combine();
      ghost var c := terms;
      var i := 0;
      while i < |terms| - 1
        invariant 0 <= i <= |terms| - 1
        invariant terms[..i] + Pruned(terms[i..]) == Pruned(c)
        decreases |terms| - i
      {
        if terms[i].coef == Zero {
          PruneDrop(terms, i);
          terms := terms[..i] + terms[i + 1..];
        } else {
          PruneKeep(terms, i);
          i := i + 1;
        }
      }
      PruneDone(terms);
    }

    /** `fill`: add 0*x^i for i = 0, 1, ... while i is below the current
        number of terms, which ends with every exponent from the maximum
        down to 0 present. */
    method Fill()
      modifies this
      ensures terms == Filled(old(terms))
    {
      ghost var s := terms;
      var i := 0;
      while i < |terms|
        invariant i == 0 ==> terms == s
        invariant i > 0 ==> s != [] && i <= MaxExp(s) + 1 && terms == Combined(s + Zeros(i))
        decreases (if s == [] then 0 else MaxExp(s) + 1) - i
      {
        FillStep(s, i, terms);
        AddTerm(Term(Zero, i));
        i := i + 1;
      }
      if i > 0 {
        FillExit(s, i);
      }
    }

    /** `addTerm`, both overloads: append the term and combine. */
    method AddTerm(t: Term)
      modifies this
      ensures terms == Combined(old(terms) + [t])
    {
      terms := terms + [t];
      Combine();
    }

    /** Unary `-`. */
    method Negated() returns (r: Polynomial)
      ensures fresh(r) && r.terms == NegSpec(terms)
    {
      r := new Polynomial([ZeroTerm]);
      var i := 0;
      assert [ZeroTerm] + MapNegate(terms[..0]) == [ZeroTerm];
      while i < |terms|
        invariant i <= |terms| && fresh(r)
        invariant r.terms == Combined([ZeroTerm] + MapNegate(terms[..i]))
      {
        AddNegatedStep(terms, i);
        r.AddTerm(Negate(terms[i]));
        i := i + 1;
      }
      assert terms[..i] == terms;
    }

    /** Binary `+`. */
    method Sum(other: Polynomial) returns (r: Polynomial)
      ensures fresh(r) && r.terms == SumSpec(terms, other.terms)
    {
      r := new Polynomial([ZeroTerm]);
      var i := 0;
      assert [ZeroTerm] + terms[..0] == [ZeroTerm];
      while i < |terms|
        invariant i <= |terms| && fresh(r)
        invariant r.terms == Combined([ZeroTerm] + terms[..i])
      {
        AddStep([ZeroTerm], terms, i);
        r.AddTerm(terms[i]);
        i := i + 1;
      }
      assert terms[..i] == terms;
      var j := 0;
      assert [ZeroTerm] + terms + other.terms[..0] == [ZeroTerm] + terms;
      while j < |other.terms|
        invariant j <= |other.terms| && fresh(r)
        invariant r.terms == Combined([ZeroTerm] + terms + other.terms[..j])
      {
        AddStep([ZeroTerm] + terms, other.terms, j);
        r.AddTerm(other.terms[j]);
        j := j + 1;
      }
      assert other.terms[..j] == other.terms;
      r.Combine();
      CombineIdempotent([ZeroTerm] + terms + other.terms);
    }

    /** Binary `-`: the second operand's terms are added with negated coefficients. */
    method Difference(other: Polynomial) returns (r: Polynomial)
      ensures fresh(r) && r.terms == DiffSpec(terms, other.terms)
    {
      r := new Polynomial([ZeroTerm]);
      var i := 0;
      assert [ZeroTerm] + terms[..0] == [ZeroTerm];
      while i < |terms|
        invariant i <= |terms| && fresh(r)
        invariant r.terms == Combined([ZeroTerm] + terms[..i])
      {
        AddStep([ZeroTerm], terms, i);
        r.AddTerm(terms[i]);
        i := i + 1;
      }
      assert terms[..i] == terms;
      var j := 0;
      assert [ZeroTerm] + terms + MapNegate(other.terms[..0]) == [ZeroTerm] + terms;
      while j < |other.terms|
        invariant j <= |other.terms| && fresh(r)
        invariant r.terms == Combined([ZeroTerm] + terms + MapNegate(other.terms[..j]))
      {
        AddNegatedStep2([ZeroTerm] + terms, other.terms, j);
        r.AddTerm(Term(Neg(other.terms[j].coef), other.terms[j].exp));
        j := j + 1;
      }
      assert other.terms[..j] == other.terms;
      r.Combine();
      CombineIdempotent([ZeroTerm] + terms + MapNegate(other.terms));
    }

    /** Binary `*`: every product terms[i] * other.terms[j], row by row. */
    method Product(other: Polynomial) returns (r: Polynomial)
      ensures fresh(r) && r.terms == ProdSpec(terms, other.terms)
    {
      r := new Polynomial([ZeroTerm]);
      var i := 0;
      assert [ZeroTerm] + Cross(terms[..0], other.terms) == [ZeroTerm];
      while i < |terms|
        invariant i <= |terms| && fresh(r)
        invariant r.terms == Combined([ZeroTerm] + Cross(terms[..i], other.terms))
      {
        var j := 0;
        assert Row(terms[i], other.terms[..0]) == [];
        assert [ZeroTerm] + Cross(terms[..i], other.terms) + [] == [ZeroTerm] + Cross(terms[..i], other.terms);
        while j < |other.terms|
          invariant j <= |other.terms| && fresh(r)
          invariant r.terms == Combined([ZeroTerm] + Cross(terms[..i], other.terms) + Row(terms[i], other.terms[..j]))
        {
          RowStep([ZeroTerm] + Cross(terms[..i], other.terms), terms[i], other.terms, j);
          r.AddTerm(Times(terms[i], other.terms[j]));
          j := j + 1;
        }
        assert other.terms[..j] == other.terms;
        CrossStep(terms, other.terms, i);
        i := i + 1;
      }
      assert terms[..i] == terms;
      r.Combine();
      CombineIdempotent([ZeroTerm] + Cross(terms, other.terms));
    }

    /** `p + t`: p combined, then t added. */
    method PlusTerm(t: Term) returns (r: Polynomial)
      ensures fresh(r) && r.terms == PlusTermSpec(terms, t)
    {
      r := new Polynomial(terms);
      r.AddTerm(t);
    }

    /** `p - t`: the default polynomial with -t added; p itself is not used. */
    method MinusTerm(t: Term) returns (r: Polynomial)
      ensures fresh(r) && r.terms == MinusTermSpec(terms, t)
    {
      r := new Polynomial([ZeroTerm]);
      r.AddTerm(Term(Neg(t.coef), t.exp));
      CombinedAppend([ZeroTerm], [Negate(t)]);
      assert [ZeroTerm] + [Negate(t)] == [ZeroTerm, Negate(t)];
    }

    /** `p * t`: every term multiplied by t. */
    method TimesTerm(t: Term) returns (r: Polynomial)
      ensures fresh(r) && r.terms == TimesTermSpec(terms, t)
    {
      r := new Polynomial([ZeroTerm]);
      var i := 0;
      assert [ZeroTerm] + MapTimes(terms[..0], t) == [ZeroTerm];
      while i < |terms|
        invariant i <= |terms| && fresh(r)
        invariant r.terms == Combined([ZeroTerm] + MapTimes(terms[..i], t))
      {
        TimesStep(terms, t, i);
        r.AddTerm(Times(terms[i], t));
        i := i + 1;
      }
      assert terms[..i] == terms;
    }

    /** The preparation shared by `/` and `%`: both operands through
        zero_remove, the degree difference exp_max, then both through fill. */
    method Padded(other: Polynomial) returns (copy: Polynomial, cOther: Polynomial, expMax: int)
      requires terms != [] && other.terms != []
      ensures fresh(copy) && fresh(cOther) && copy != cOther
      ensures expMax == Degree(terms) - Degree(other.terms)
      ensures copy.terms == Filled(ZeroRemoved(terms))
      ensures cOther.terms == Filled(ZeroRemoved(other.terms))
    {
      ghost var a, b := terms, other.terms;
      copy := new Polynomial(terms);
      cOther := new Polynomial.Copy(other);
      copy.ZeroRemove();
      cOther.ZeroRemove();
      ZeroRemovedIdempotent(a);
      ghost var za, zb := copy.terms, cOther.terms;
      assert za == ZeroRemoved(a) && zb == ZeroRemoved(b);
      expMax := copy.terms[0].exp - cOther.terms[0].exp;
      assert expMax == Degree(a) - Degree(b);
      copy.Fill();
      cOther.Fill();
    }

    /** The inner loop of `/` and `%`: subtract val times the divisor from the
        padded dividend, the divisor aligned at index shift. */
    method SubtractShifted(other: Polynomial, shift: nat, val: Coef)
      requires other != this && shift + |other.terms| <= |terms|
      modifies this
      ensures terms == Eliminate(old(terms), other.terms, shift, val)
    {
      ghost var w := terms;
      var i := 0;
      while i < |other.terms|
        invariant i <= |other.terms|
        invariant terms == Eliminate(w, other.terms[..i], shift, val)
      {
        EliminateStep(w, other.terms, shift, val, i);
        terms := terms[i + shift := Term(Sub(terms[i + shift].coef, Mul(other.terms[i].coef, val)), terms[i + shift].exp)];
        i := i + 1;
      }
      assert other.terms[..i] == other.terms;
    }

    /** `operator/`: the default polynomial when the divisor's degree is
        larger, otherwise the quotient val*x^(exp_max - shift) of each step. */
    method Quotient(other: Polynomial) returns (r: Polynomial)
      requires terms != [] && other.terms != []
      ensures fresh(r) && r.terms == QuotientSpec(terms, other.terms)
    {
      var copy, cOther, expMax := Padded(other);
      if expMax < 0 {
        r := new Polynomial([ZeroTerm]);
        CombinedNormal([ZeroTerm]);
        return;
      }
      ghost var w, v := copy.terms, cOther.terms;
      QuotientDone(terms, other.terms, w, v, expMax, expMax + 1);
      r := QuotientLoop(copy, cOther, expMax);
    }

    /** The elimination loop of `/`: exp_max + 1 steps on the padded operands,
        each adding its quotient term to the result. */
    static method QuotientLoop(copy: Polynomial, cOther: Polynomial, expMax: nat) returns (r: Polynomial)
      requires copy != cOther && |cOther.terms| > 0 && |copy.terms| == expMax + |cOther.terms|
      modifies copy
      ensures fresh(r)
      ensures r.terms == Combined([ZeroTerm] + QTerms(Steps(old(copy.terms), cOther.terms, expMax + 1).quot, expMax))
    {
      ghost var w, v := copy.terms, cOther.terms;
      r := new Polynomial([ZeroTerm]);
      var shift := 0;
      assert [ZeroTerm] + QTerms(Steps(w, v, 0).quot, expMax) == [ZeroTerm];
      while shift <= expMax
        invariant shift <= expMax + 1
        invariant fresh(r) && r != copy && r != cOther
        invariant cOther.terms == v
        invariant copy.terms == Steps(w, v, shift).rem
        invariant r.terms == Combined([ZeroTerm] + QTerms(Steps(w, v, shift).quot, expMax))
      {
        var val := Div(copy.terms[shift].coef, cOther.terms[0].coef);
        QuotientStep(w, v, shift, expMax);
        r.AddTerm(Term(val, expMax - shift));
        copy.SubtractShifted(cOther, shift, val);
        shift := shift + 1;
      }
    }

    /** `operator%`: p itself (combined) when the divisor's degree is larger,
        otherwise the padded dividend after all elimination steps. */
    method Remainder(other: Polynomial) returns (r: Polynomial)
      requires terms != [] && other.terms != []
      ensures fresh(r) && r.terms == ModSpec(terms, other.terms)
    {
      var copy, cOther, expMax := Padded(other);
      if expMax < 0 {
        r := new Polynomial(terms);
        return;
      }
      ghost var w, v := copy.terms, cOther.terms;
      RemainderDone(terms, other.terms, w, v, expMax, expMax + 1);
      RemainderLoop(copy, cOther, expMax);
      r := copy;
    }

    /** The elimination loop of `%`: exp_max + 1 steps on the padded dividend. */
    static method RemainderLoop(copy: Polynomial, cOther: Polynomial, expMax: nat)
      requires copy != cOther && |cOther.terms| > 0 && |copy.terms| == expMax + |cOther.terms|
      modifies copy
      ensures copy.terms == Steps(old(copy.terms), cOther.terms, expMax + 1).rem
    {
      ghost var w, v := copy.terms, cOther.terms;
      var shift := 0;
      while shift <= expMax
        invariant shift <= expMax + 1
        invariant cOther.terms == v
        invariant copy.terms == Steps(w, v, shift).rem
      {
        var val := Div(copy.terms[shift].coef, cOther.terms[0].coef);
        copy.SubtractShifted(cOther, shift, val);
        shift := shift + 1;
      }
    }

    /** `operator<<`: each term of the combined copy shifted up n exponents,
        then the constant of integration added. The loop runs over the
        combined copy's own length. */
    method Integrate(n: nat) returns (r: Polynomial)
      ensures fresh(r) && r.terms == IntegralSpec(terms, n)
    {
      r := new Polynomial(terms);
      ghost var c := r.terms;
      var i := 0;
      while i < |r.terms|
        invariant i <= |c| && |r.terms| == |c|
        invariant r.terms == MapAntiderive(c[..i], n) + c[i..]
      {
        var t := ShiftUp(r.terms[i], n);
        AntideriveStep(c, n, i);
        r.terms := r.terms[i := t];
        i := i + 1;
      }
      assert r.terms == MapAntiderive(c, n) by {
        assert c[..i] == c && c[i..] == [];
      }
      r.AddTerm(Constant);
    }

    /** `operator>>`: each term of the combined copy shifted down n exponents,
        returned through the copy constructor without combining again. The loop
        runs over the combined copy's own length. */
    method Differentiate(n: nat) returns (r: Polynomial)
      ensures fresh(r) && r.terms == DeriveSpec(terms, n)
    {
      var result := new Polynomial(terms);
      ghost var c := result.terms;
      var i := 0;
      while i < |result.terms|
        invariant i <= |c| && |result.terms| == |c|
        invariant result.terms == MapDerive(c[..i], n) + c[i..]
      {
        var t := ShiftDown(result.terms[i], n);
        DeriveStep(c, n, i);
        result.terms := result.terms[i := t];
        i := i + 1;
      }
      assert result.terms == MapDerive(c, n) by {
        assert c[..i] == c && c[i..] == [];
      }
      r := new Polynomial.Copy(result);
    }

    /** `integral()`: one antiderivative step. */
    method Integral() returns (r: Polynomial)
      ensures fresh(r) && r.terms == IntegralSpec(terms, 1)
    {
      r := Integrate(1);
    }

    /** `operator&` (and `gcd`): the Euclidean loop on (copy, c_other). */
    method Gcd(other: Polynomial) returns (r: Polynomial)
      requires GcdReady(terms, other.terms)
      ensures fresh(r) && r.terms == GcdSpec(terms, other.terms)
    {
      var copy := new Polynomial(terms);
      var cOther := new Polynomial.Copy(other);
      GcdStart(terms, other.terms);
      ghost var x0, y0 := copy.terms, cOther.terms;
      while cOther.terms[0].exp != 0
        invariant fresh(copy) && fresh(cOther) && copy != cOther
        invariant Reaches(x0, y0, copy.terms, cOther.terms)
        decreases cOther.terms[0].exp
      {
        LoopStep(x0, y0, copy.terms, cOther.terms);
        copy, cOther := EuclidRound(copy, cOther);
      }
      GcdFinish(terms, other.terms, copy.terms, cOther.terms);
      if cOther.terms[0].coef != Zero {
        r := new Polynomial.Single(Term(One, 0));
      } else {
        r := copy.TimesTerm(Term(Div(One, other.terms[0].coef), 0));
      }
    }

    /** One round of the loop of `&`: copy % c_other, the pair moved along,
        both through zero_remove. */
    static method EuclidRound(copy: Polynomial, cOther: Polynomial) returns (x: Polynomial, y: Polynomial)
      requires copy != cOther && copy.terms != [] && cOther.terms != []
      modifies cOther
      ensures x == cOther && fresh(y)
      ensures x.terms == ZeroRemoved(old(cOther.terms))
      ensures y.terms == ZeroRemoved(ModSpec(copy.terms, old(cOther.terms)))
    {
      var m := copy.Remainder(cOther);
      x, y := cOther, m;
      x.ZeroRemove();
      y.ZeroRemove();
    }

    /** `operator|` (and `lcm`): (other * p) / (p & other), p combined. */
    method Lcm(other: Polynomial) returns (r: Polynomial)
      requires GcdReady(terms, other.terms)
      ensures fresh(r) && r.terms == LcmSpec(terms, other.terms)
    {
      var copy := new Polynomial(terms);
      GcdReadyCombined(terms, other.terms);
      var p := other.Product(copy);
      var g := copy.Gcd(other);
      ExpsEmpty(p.terms);
      ExpsEmpty(g.terms);
      r := p.Quotient(g);
    }
  }

  // ---------------------------------------------------------------------------
  // The loop bound of `<<` and `>>` as written

  /** As written, the loops of `<<` and `>>` run i over this->terms.size() and
      read result.terms[i], where result holds the combined copy: every read
      is in range only when combining removes no term. */
  ghost predicate ShiftLoopInBounds(s: seq<Term>) {
    |s| <= |Combined(s)|
  }

  /** `(x + 1) >> 1` holds 1*x^0 and 0*x^0, which combine into one term, so
      shifting it again reads result.terms[1] of a one-term vector. */
  lemma ShiftLoopOverrun()
    ensures var p := DeriveSpec([Term(One, 1), Term(One, 0)], 1);
      |p| == 2 && |Combined(p)| == 1 && !ShiftLoopInBounds(p)
  {
    var c := [Term(One, 1), Term(One, 0)];
    CombinedNormal(c);
    var p := DeriveSpec(c, 1);
    assert p[1] == ZeroTerm;
    assert p[0].exp == 0;
    assert Exps(p) == {0};
    var q := Combined(p);
    assert forall k :: 0 <= k < |q| ==> q[k].exp == 0 by {
      forall k | 0 <= k < |q| ensures q[k].exp == 0 {
        assert q[k].exp in Exps(p);
      }
    }
    NormalLengthBound(q, 0);
  }

  // ---------------------------------------------------------------------------
  // The steps of the loops

  /** The merge loop passes a term whose exponent differs from its predecessor's. */
  lemma MergeKeep(s: seq<Term>, i: nat)
    requires 1 <= i < |s| && s[i].exp != s[i - 1].exp
    ensures s[..i] + Merged(s[i..]) == s[..i - 1] + Merged(s[i - 1..])
  {
    var t := s[i - 1..];
    assert t[0] == s[i - 1] && t[1] == s[i];
    assert t[1..] == s[i..];
    assert Merged(t) == [s[i - 1]] + Merged(s[i..]);
    assert s[..i] == s[..i - 1] + [s[i - 1]];
  }

  /** The merge loop fuses a term into its predecessor and erases it. */
  lemma MergeFuse(s: seq<Term>, i: nat)
    requires 1 <= i < |s| && s[i].exp == s[i - 1].exp
    ensures var u := s[i - 1 := Term(Add(s[i - 1].coef, s[i].coef), s[i - 1].exp)];
      var v := u[..i] + u[i + 1..];
      v[..i - 1] + Merged(v[i - 1..]) == s[..i - 1] + Merged(s[i - 1..])
  {
    var h := Term(Add(s[i - 1].coef, s[i].coef), s[i - 1].exp);
    var u := s[i - 1 := h];
    var v := u[..i] + u[i + 1..];
    assert v[..i - 1] == s[..i - 1];
    assert v[i - 1..] == [h] + s[i - 1..][2..];
  }

  lemma MergeDone(s: seq<Term>)
    requires s != []
    ensures s[..|s| - 1] + Merged(s[|s| - 1..]) == s
  {
  }

  /** The erase loop of zero_remove drops a zero term. */
  lemma PruneDrop(s: seq<Term>, i: nat)
    requires i < |s| - 1 && s[i].coef == Zero
    ensures (s[..i] + s[i + 1..])[..i] + Pruned((s[..i] + s[i + 1..])[i..]) == s[..i] + Pruned(s[i..])
  {
    var t := s[i..];
    assert t[0] == s[i] && |t| >= 2;
    assert t[1..] == s[i + 1..];
    assert Pruned(t) == Pruned(s[i + 1..]);
    assert (s[..i] + s[i + 1..])[..i] == s[..i];
    assert (s[..i] + s[i + 1..])[i..] == s[i + 1..];
  }

  /** The erase loop of zero_remove passes a nonzero term. */
  lemma PruneKeep(s: seq<Term>, i: nat)
    requires i < |s| - 1 && s[i].coef != Zero
    ensures s[..i + 1] + Pruned(s[i + 1..]) == s[..i] + Pruned(s[i..])
  {
    var t := s[i..];
    assert t[0] == s[i] && |t| >= 2;
    assert t[1..] == s[i + 1..];
    assert Pruned(t) == [s[i]] + Pruned(s[i + 1..]);
    assert s[..i + 1] == s[..i] + [s[i]];
  }

  lemma PruneDone(s: seq<Term>)
    requires s != []
    ensures s[..|s| - 1] + Pruned(s[|s| - 1..]) == s
  {
  }

  /** One round of `fill`: adding 0*x^i extends the padding by one exponent,
      and i stays at most the maximum exponent while it is below the length. */
  lemma FillStep(s: seq<Term>, i: nat, cur: seq<Term>)
    requires i == 0 ==> cur == s
    requires i > 0 ==> s != [] && i <= MaxExp(s) + 1 && cur == Combined(s + Zeros(i))
    requires i < |cur|
    ensures s != [] && i <= MaxExp(s)
    ensures Combined(cur + [Term(Zero, i)]) == Combined(s + Zeros(i + 1))
  {
    assert Zeros(i + 1) == Zeros(i) + [Term(Zero, i)];
    if i == 0 {
      assert Zeros(1) == [Term(Zero, 0)];
    } else {
      FilledContent(s, i);
      NormalLengthBound(cur, MaxExp(s));
      CombinedAppend(s + Zeros(i), [Term(Zero, i)]);
      assert s + Zeros(i) + [Term(Zero, i)] == s + Zeros(i + 1);
    }
  }

  /** `fill` stops only once every exponent down to 0 is present. */
  lemma FillExit(s: seq<Term>, i: nat)
    requires s != [] && 0 < i <= MaxExp(s) + 1 && i >= |Combined(s + Zeros(i))|
    ensures Combined(s + Zeros(i)) == Filled(s)
  {
    if i <= MaxExp(s) {
      FillProgress(s, i);
    }
  }

  /** Adding the next term of a sequence to a combined prefix. */
  lemma AddStep(pre: seq<Term>, a: seq<Term>, i: nat)
    requires i < |a|
    ensures Combined(Combined(pre + a[..i]) + [a[i]]) == Combined(pre + a[..i + 1])
  {
    CombinedAppend(pre + a[..i], [a[i]]);
    assert a[..i + 1] == a[..i] + [a[i]];
    assert pre + a[..i] + [a[i]] == pre + a[..i + 1];
  }

  lemma AddNegatedStep(a: seq<Term>, i: nat)
    requires i < |a|
    ensures Combined(Combined([ZeroTerm] + MapNegate(a[..i])) + [Negate(a[i])]) ==
      Combined([ZeroTerm] + MapNegate(a[..i + 1]))
  {
    CombinedAppend([ZeroTerm] + MapNegate(a[..i]), [Negate(a[i])]);
    assert MapNegate(a[..i + 1]) == MapNegate(a[..i]) + [Negate(a[i])];
    assert [ZeroTerm] + MapNegate(a[..i]) + [Negate(a[i])] == [ZeroTerm] + MapNegate(a[..i + 1]);
  }

  lemma AddNegatedStep2(pre: seq<Term>, b: seq<Term>, j: nat)
    requires j < |b|
    ensures Combined(Combined(pre + MapNegate(b[..j])) + [Term(Neg(b[j].coef), b[j].exp)]) ==
      Combined(pre + MapNegate(b[..j + 1]))
  {
    CombinedAppend(pre + MapNegate(b[..j]), [Negate(b[j])]);
    assert MapNegate(b[..j + 1]) == MapNegate(b[..j]) + [Negate(b[j])];
    assert pre + MapNegate(b[..j]) + [Negate(b[j])] == pre + MapNegate(b[..j + 1]);
  }

  lemma TimesStep(a: seq<Term>, t: Term, i: nat)
    requires i < |a|
    ensures Combined(Combined([ZeroTerm] + MapTimes(a[..i], t)) + [Times(a[i], t)]) ==
      Combined([ZeroTerm] + MapTimes(a[..i + 1], t))
  {
    CombinedAppend([ZeroTerm] + MapTimes(a[..i], t), [Times(a[i], t)]);
    assert MapTimes(a[..i + 1], t) == MapTimes(a[..i], t) + [Times(a[i], t)];
    assert [ZeroTerm] + MapTimes(a[..i], t) + [Times(a[i], t)] == [ZeroTerm] + MapTimes(a[..i + 1], t);
  }

  lemma RowStep(pre: seq<Term>, x: Term, b: seq<Term>, j: nat)
    requires j < |b|
    ensures Combined(Combined(pre + Row(x, b[..j])) + [Times(x, b[j])]) == Combined(pre + Row(x, b[..j + 1]))
  {
    CombinedAppend(pre + Row(x, b[..j]), [Times(x, b[j])]);
    assert Row(x, b[..j + 1]) == Row(x, b[..j]) + [Times(x, b[j])];
    assert pre + Row(x, b[..j]) + [Times(x, b[j])] == pre + Row(x, b[..j + 1]);
  }

  /** A finished row extends the cross product by one left-hand term. */
  lemma CrossStep(a: seq<Term>, b: seq<Term>, i: nat)
    requires i < |a|
    ensures [ZeroTerm] + Cross(a[..i], b) + Row(a[i], b) == [ZeroTerm] + Cross(a[..i + 1], b)
  {
    var p := a[..i + 1];
    assert p[..|p| - 1] == a[..i];
    assert Cross(p, b) == Cross(a[..i], b) + Row(a[i], b);
  }

  /** After exp_max + 1 steps the loop of `/` has done what `Run` does. */
  lemma QuotientDone(a: seq<Term>, b: seq<Term>, w: seq<Term>, v: seq<Term>, em: nat, n: nat)
    requires a != [] && b != [] && w == Filled(ZeroRemoved(a)) && v == Filled(ZeroRemoved(b))
    requires Degree(b) <= Degree(a) && em == Degree(a) - Degree(b) && n == em + 1
    ensures |v| > 0 && |w| == em + |v|
    ensures QuotientSpec(a, b) == Combined([ZeroTerm] + QTerms(Steps(w, v, n).quot, em))
  {
    RunIsSteps(a, b, w, v, n);
    SpecsAreRun(a, b);
    QuotientDenseAt(Steps(w, v, n).quot, em);
  }

  /** After exp_max + 1 steps the loop of `%` has done what `Run` does. */
  lemma RemainderDone(a: seq<Term>, b: seq<Term>, w: seq<Term>, v: seq<Term>, em: nat, n: nat)
    requires a != [] && b != [] && w == Filled(ZeroRemoved(a)) && v == Filled(ZeroRemoved(b))
    requires Degree(b) <= Degree(a) && em == Degree(a) - Degree(b) && n == em + 1
    ensures |v| > 0 && |w| == em + |v|
    ensures ModSpec(a, b) == Steps(w, v, n).rem
  {
    RunIsSteps(a, b, w, v, n);
  }

  /** One step of the division loop: the new quotient term joins the result. */
  lemma QuotientStep(w: seq<Term>, v: seq<Term>, shift: nat, em: nat)
    requires |v| > 0 && shift <= em && |w| == em + |v|
    ensures Steps(w, v, shift + 1).rem ==
      Eliminate(Steps(w, v, shift).rem, v, shift, Div(Steps(w, v, shift).rem[shift].coef, v[0].coef))
    ensures Combined(Combined([ZeroTerm] + QTerms(Steps(w, v, shift).quot, em)) +
        [Term(Div(Steps(w, v, shift).rem[shift].coef, v[0].coef), em - shift)]) ==
      Combined([ZeroTerm] + QTerms(Steps(w, v, shift + 1).quot, em))
  {
    var st := Steps(w, v, shift);
    var val := Div(st.rem[shift].coef, v[0].coef);
    var q := QTerms(st.quot, em);
    CombinedAppend([ZeroTerm] + q, [Term(val, em - shift)]);
    QTermsSnoc(st.quot, val, em);
    assert Steps(w, v, shift + 1).quot == st.quot + [val];
    assert [ZeroTerm] + q + [Term(val, em - shift)] == [ZeroTerm] + QTerms(st.quot + [val], em);
  }

  /** One iteration of the loop of `&`: the invariant holds for the new pair,
      which the recursion of `Loop` visits next, and c_other's leading exponent
      drops. */
  lemma LoopStep(x0: seq<Term>, y0: seq<Term>, x: seq<Term>, y: seq<Term>)
    requires Reaches(x0, y0, x, y) && y[0].exp != 0
    ensures Reaches(x0, y0, ZeroRemoved(y), ZeroRemoved(ModSpec(x, y)))
    ensures ZeroRemoved(ModSpec(x, y))[0].exp < y[0].exp
  {
    EuclidStep(x, y);
  }

  /** The pair (x, y) is one the loop of `&` reaches from (x0, y0). */
  ghost predicate Reaches(x0: seq<Term>, y0: seq<Term>, x: seq<Term>, y: seq<Term>) {
    Inv(x0, y0) && Inv(x, y) && Loop(x, y) == Loop(x0, y0)
  }

  /** After the loop of `&`, the result as `GcdSpec` describes it. */
  lemma GcdFinish(a: seq<Term>, b: seq<Term>, x: seq<Term>, y: seq<Term>)
    requires GcdReady(a, b) && y != [] && y[0].exp == 0 && Reaches(Combined(a), b, x, y)
    ensures GcdSpec(a, b) == if y[0].coef != Zero then [Term(One, 0)]
      else TimesTermSpec(x, Term(Div(One, b[0].coef), 0))
  {
    GcdStart(a, b);
  }

  /** One step of the elimination loop. */
  lemma EliminateStep(w: seq<Term>, b: seq<Term>, shift: nat, val: Coef, i: nat)
    requires i < |b| && shift + |b| <= |w|
    ensures var e := Eliminate(w, b[..i], shift, val);
      e[i + shift := Term(Sub(e[i + shift].coef, Mul(b[i].coef, val)), e[i + shift].exp)] ==
        Eliminate(w, b[..i + 1], shift, val)
  {
  }

  lemma AntideriveStep(c: seq<Term>, n: nat, i: nat)
    requires i < |c|
    ensures (MapAntiderive(c[..i], n) + c[i..])[i := Antiderive(c[i], n)] == MapAntiderive(c[..i + 1], n) + c[i + 1..]
  {
  }

  lemma DeriveStep(c: seq<Term>, n: nat, i: nat)
    requires i < |c|
    ensures (MapDerive(c[..i], n) + c[i..])[i := Derive(c[i], n)] == MapDerive(c[..i + 1], n) + c[i + 1..]
  {
  }
}

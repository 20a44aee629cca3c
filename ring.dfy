/** The ring operators of `Polynomial` as functions of the operands' terms.
    Each binary operator starts from the default polynomial {0*x^0} and adds the
    operands' terms one at a time with `addTerm` (append, then combine); the
    functions below state the resulting normal form directly, and their
    contracts say what the result means coefficient by coefficient. */
module Ring {
  import opened Coefs
  import opened Terms
  import opened NormalForm

  function MapNegate(s: seq<Term>): (r: seq<Term>)
    ensures |r| == |s| && forall i :: 0 <= i < |s| ==> r[i] == Negate(s[i])
  {
    seq(|s|, i requires 0 <= i < |s| => Negate(s[i]))
  }

  function MapTimes(s: seq<Term>, t: Term): (r: seq<Term>)
    ensures |r| == |s| && forall i :: 0 <= i < |s| ==> r[i] == Times(s[i], t)
  {
    seq(|s|, i requires 0 <= i < |s| => Times(s[i], t))
  }

  /** The products a*b[0], a*b[1], ... added by one pass of the inner loop of `*`. */
  function Row(a: Term, b: seq<Term>): (r: seq<Term>)
    ensures |r| == |b| && forall j :: 0 <= j < |b| ==> r[j] == Times(a, b[j])
  {
    seq(|b|, j requires 0 <= j < |b| => Times(a, b[j]))
  }

  /** All products a[i]*b[j], in the order the nested loops of `*` add them. */
  function Cross(a: seq<Term>, b: seq<Term>): seq<Term>
    decreases |a|
  {
    if a == [] then [] else Cross(a[..|a| - 1], b) + Row(a[|a| - 1], b)
  }

  /** The contribution of term t of the left operand to the coefficient of x^e:
      nothing when no term of b has exponent e - exp t, even for an
      indeterminate t, since then no product lands on x^e. */
  function ConvTerm(t: Term, b: seq<Term>, e: nat): Coef {
    if t.exp <= e && e - t.exp in Exps(b) then Mul(t.coef, Coeff(b, e - t.exp)) else Zero
  }

  /** The textbook product coefficient: sum over i of a_i * b_(e - exp_i). */
  function Conv(a: seq<Term>, b: seq<Term>, e: nat): Coef
    decreases |a|
  {
    if a == [] then Zero else Add(Conv(a[..|a| - 1], b, e), ConvTerm(a[|a| - 1], b, e))
  }

  lemma {:induction false} CoeffMapNegate(s: seq<Term>, e: nat)
    ensures Coeff(MapNegate(s), e) == Neg(Coeff(s, e))
  {
    if s != [] {
      assert MapNegate(s)[1..] == MapNegate(s[1..]);
      CoeffMapNegate(s[1..], e);
      NegAdd(s[0].coef, Coeff(s[1..], e));
    }
  }

  lemma ExpsMapNegate(s: seq<Term>)
    ensures Exps(MapNegate(s)) == Exps(s)
  {
    var r := MapNegate(s);
    forall x | x in Exps(s) ensures x in Exps(r) {
      var i :| 0 <= i < |s| && s[i].exp == x;
      assert r[i].exp == x;
    }
  }

  /** The coefficient of x^e in the terms of s each multiplied by t, for any t. */
  lemma {:induction false} CoeffMapTimes(s: seq<Term>, t: Term, e: nat)
    ensures Coeff(MapTimes(s, t), e) ==
      if t.exp <= e && e - t.exp in Exps(s) then Mul(Coeff(s, e - t.exp), t.coef) else Zero
  {
    if s != [] {
      assert MapTimes(s, t)[1..] == MapTimes(s[1..], t);
      CoeffMapTimes(s[1..], t, e);
      ExpsCons(s[0], s[1..]);
      assert [s[0]] + s[1..] == s;
      if t.exp <= e {
        var y := e - t.exp;
        if y !in Exps(s[1..]) {
          CoeffAbsent(s[1..], y);
          AddZero(s[0].coef);
          AddZero(Mul(s[0].coef, t.coef));
        }
        MulAddRight(s[0].coef, Coeff(s[1..], y), t.coef);
      }
    }
  }

  lemma ExpsMapTimes(s: seq<Term>, t: Term)
    ensures forall x :: x in Exps(MapTimes(s, t)) <==> x >= t.exp && x - t.exp in Exps(s)
  {
    var r := MapTimes(s, t);
    forall x | x in Exps(r) ensures x >= t.exp && x - t.exp in Exps(s) {
      var i :| 0 <= i < |r| && r[i].exp == x;
      assert s[i].exp == x - t.exp;
    }
    forall x | x >= t.exp && x - t.exp in Exps(s) ensures x in Exps(r) {
      var i :| 0 <= i < |s| && s[i].exp == x - t.exp;
      assert r[i].exp == x;
    }
  }

  lemma {:induction false} CoeffRow(t: Term, b: seq<Term>, e: nat)
    ensures Coeff(Row(t, b), e) == ConvTerm(t, b, e)
  {
    if b != [] {
      assert Row(t, b)[1..] == Row(t, b[1..]);
      CoeffRow(t, b[1..], e);
      ExpsCons(b[0], b[1..]);
      assert [b[0]] + b[1..] == b;
      if t.exp <= e {
        var y := e - t.exp;
        if y !in Exps(b[1..]) {
          CoeffAbsent(b[1..], y);
          AddZero(b[0].coef);
          AddZero(Mul(t.coef, b[0].coef));
        }
        MulAddLeft(t.coef, b[0].coef, Coeff(b[1..], y));
      }
    }
  }

  lemma {:induction false} CoeffCross(a: seq<Term>, b: seq<Term>, e: nat)
    ensures Coeff(Cross(a, b), e) == Conv(a, b, e)
    decreases |a|
  {
    if a != [] {
      var n := |a| - 1;
      CoeffCross(a[..n], b, e);
      CoeffAppend(Cross(a[..n], b), Row(a[n], b), e);
      CoeffRow(a[n], b, e);
    }
  }

  lemma {:induction false} ExpsCross(a: seq<Term>, b: seq<Term>)
    ensures forall x :: x in Exps(Cross(a, b)) ==>
      exists i, j :: 0 <= i < |a| && 0 <= j < |b| && x == a[i].exp + b[j].exp
    decreases |a|
  {
    if a != [] {
      var n := |a| - 1;
      ExpsCross(a[..n], b);
      ExpsAppend(Cross(a[..n], b), Row(a[n], b));
      forall x | x in Exps(Cross(a, b))
        ensures exists i, j :: 0 <= i < |a| && 0 <= j < |b| && x == a[i].exp + b[j].exp
      {
        if x in Exps(Row(a[n], b)) {
          var j :| 0 <= j < |b| && Row(a[n], b)[j].exp == x;
          assert x == a[n].exp + b[j].exp;
        } else {
          var i, j :| 0 <= i < |a[..n]| && 0 <= j < |b| && x == a[..n][i].exp + b[j].exp;
          assert x == a[i].exp + b[j].exp;
        }
      }
    }
  }

  /** Every sum of an exponent of a and one of b occurs in the cross product. */
  lemma ExpsCrossBack(a: seq<Term>, b: seq<Term>)
    ensures forall i, j :: 0 <= i < |a| && 0 <= j < |b| ==> a[i].exp + b[j].exp in Exps(Cross(a, b))
  {
    forall i, j | 0 <= i < |a| && 0 <= j < |b| ensures a[i].exp + b[j].exp in Exps(Cross(a, b)) {
      CrossHasSum(a, b, i, j);
    }
  }

  lemma {:induction false} CrossHasSum(a: seq<Term>, b: seq<Term>, i: nat, j: nat)
    requires i < |a| && j < |b|
    ensures a[i].exp + b[j].exp in Exps(Cross(a, b))
    decreases |a|
  {
    var n := |a| - 1;
    var c := Cross(a[..n], b);
    var r := Row(a[n], b);
    assert Cross(a, b) == c + r;
    if i == n {
      assert (c + r)[|c| + j] == r[j];
    } else {
      CrossHasSum(a[..n], b, i, j);
      assert a[..n][i] == a[i];
      ExpsAppend(c, r);
    }
  }

  // ---------------------------------------------------------------------------
  // The operators

  /** Unary `-`: every coefficient negated, exponent 0 always present. */
  function NegSpec(a: seq<Term>): (r: seq<Term>)
    ensures Normal(r)
    ensures Exps(r) == {0} + Exps(a)
    ensures forall e: nat :: Coeff(r, e) == Neg(Coeff(a, e))
  {
    var s := [ZeroTerm] + MapNegate(a);
    ExpsCons(ZeroTerm, MapNegate(a));
    ExpsMapNegate(a);
    forall e: nat ensures Coeff(Combined(s), e) == Neg(Coeff(a, e)) {
      CoeffAppend([ZeroTerm], MapNegate(a), e);
      CoeffSingle(ZeroTerm, e);
      CoeffMapNegate(a, e);
      AddZero(Neg(Coeff(a, e)));
    }
    Combined(s)
  }

  /** Binary `+`: coefficients added exponent by exponent, exponent 0 always present. */
  function SumSpec(a: seq<Term>, b: seq<Term>): (r: seq<Term>)
    ensures Normal(r)
    ensures Exps(r) == {0} + Exps(a) + Exps(b)
    ensures forall e: nat :: Coeff(r, e) == Add(Coeff(a, e), Coeff(b, e))
  {
    var s := [ZeroTerm] + a + b;
    ExpsAppend([ZeroTerm] + a, b);
    ExpsCons(ZeroTerm, a);
    forall e: nat ensures Coeff(Combined(s), e) == Add(Coeff(a, e), Coeff(b, e)) {
      CoeffAppend([ZeroTerm] + a, b, e);
      CoeffAppend([ZeroTerm], a, e);
      CoeffSingle(ZeroTerm, e);
      AddZero(Coeff(a, e));
    }
    Combined(s)
  }

  /** Binary `-`: coefficients subtracted exponent by exponent, exponent 0 always present. */
  function DiffSpec(a: seq<Term>, b: seq<Term>): (r: seq<Term>)
    ensures Normal(r)
    ensures Exps(r) == {0} + Exps(a) + Exps(b)
    ensures forall e: nat :: Coeff(r, e) == Sub(Coeff(a, e), Coeff(b, e))
  {
    var nb := MapNegate(b);
    var s := [ZeroTerm] + a + nb;
    ExpsAppend([ZeroTerm] + a, nb);
    ExpsCons(ZeroTerm, a);
    ExpsMapNegate(b);
    forall e: nat ensures Coeff(Combined(s), e) == Sub(Coeff(a, e), Coeff(b, e)) {
      CoeffAppend([ZeroTerm] + a, nb, e);
      CoeffAppend([ZeroTerm], a, e);
      CoeffSingle(ZeroTerm, e);
      AddZero(Coeff(a, e));
      CoeffMapNegate(b, e);
      NegAdd(Coeff(a, e), Coeff(b, e));
    }
    Combined(s)
  }

  /** Binary `*`: the cross product of terms, combined; for numeric coefficients
      the coefficient of x^e is the convolution sum of a_i * b_(e - exp_i). */
  function ProdSpec(a: seq<Term>, b: seq<Term>): (r: seq<Term>)
    ensures Normal(r) && 0 in Exps(r)
    ensures forall x :: x != 0 ==>
      (x in Exps(r) <==> exists i, j :: 0 <= i < |a| && 0 <= j < |b| && x == a[i].exp + b[j].exp)
    ensures forall e: nat :: Coeff(r, e) == Conv(a, b, e)
  {
    ProdContent(a, b);
    Combined([ZeroTerm] + Cross(a, b))
  }

  lemma ProdContent(a: seq<Term>, b: seq<Term>)
    ensures 0 in Exps(Combined([ZeroTerm] + Cross(a, b)))
    ensures forall x :: x != 0 ==>
      (x in Exps(Combined([ZeroTerm] + Cross(a, b))) <==>
       exists i, j :: 0 <= i < |a| && 0 <= j < |b| && x == a[i].exp + b[j].exp)
    ensures forall e: nat :: Coeff(Combined([ZeroTerm] + Cross(a, b)), e) == Conv(a, b, e)
  {
    ProdExps(a, b);
    ProdCoeffs(a, b);
  }

  lemma ProdExps(a: seq<Term>, b: seq<Term>)
    ensures 0 in Exps(Combined([ZeroTerm] + Cross(a, b)))
    ensures forall x :: x != 0 ==>
      (x in Exps(Combined([ZeroTerm] + Cross(a, b))) <==>
       exists i, j :: 0 <= i < |a| && 0 <= j < |b| && x == a[i].exp + b[j].exp)
  {
    var c := Cross(a, b);
    var E := Exps(Combined([ZeroTerm] + c));
    ExpsCons(ZeroTerm, c);
    assert E == {0} + Exps(c);
    forall x | x in E && x != 0
      ensures exists i, j :: 0 <= i < |a| && 0 <= j < |b| && x == a[i].exp + b[j].exp
    {
      assert x in Exps(c);
      ExpsCross(a, b);
    }
    forall x | x != 0 && exists i, j :: 0 <= i < |a| && 0 <= j < |b| && x == a[i].exp + b[j].exp
      ensures x in E
    {
      var i, j :| 0 <= i < |a| && 0 <= j < |b| && x == a[i].exp + b[j].exp;
      ExpsCrossBack(a, b);
      assert a[i].exp + b[j].exp in Exps(c);
    }
  }

  lemma ProdCoeffs(a: seq<Term>, b: seq<Term>)
    ensures forall e: nat :: Coeff(Combined([ZeroTerm] + Cross(a, b)), e) == Conv(a, b, e)
  {
    var c := Cross(a, b);
    var s := [ZeroTerm] + c;
    forall e: nat ensures Coeff(Combined(s), e) == Conv(a, b, e) {
      CoeffAppend([ZeroTerm], c, e);
      CoeffSingle(ZeroTerm, e);
      CoeffCross(a, b, e);
      AddZero(Coeff(c, e));
    }
  }

  /** `p + t` for a term t: combines p's own terms with t, and adds no 0*x^0. */
  function PlusTermSpec(a: seq<Term>, t: Term): (r: seq<Term>)
    ensures Normal(r)
    ensures Exps(r) == Exps(a) + {t.exp}
    ensures forall e: nat :: Coeff(r, e) == Add(Coeff(a, e), if e == t.exp then t.coef else Zero)
  {
    CombinedAppend(a, [t]);
    ExpsAppend(a, [t]);
    assert Exps([t]) == {t.exp} by { assert [t][0].exp == t.exp; }
    forall e: nat ensures Coeff(Combined(a + [t]), e) == Add(Coeff(a, e), if e == t.exp then t.coef else Zero) {
      CoeffAppend(a, [t], e);
      CoeffSingle(t, e);
    }
    Combined(Combined(a) + [t])
  }

  /** One coefficient of `p * t`: the term of p at x^e lands at x^(e + exp t). */
  lemma TimesTermAt(a: seq<Term>, t: Term, e: nat)
    requires e in Exps(a)
    ensures Coeff(TimesTermSpec(a, t), e + t.exp) == Mul(Coeff(a, e), t.coef)
  {
    var x := e + t.exp;
    assert x - t.exp == e;
  }

  /** `p - t` for a term t: the default polynomial minus t; p itself is ignored. */
  function MinusTermSpec(a: seq<Term>, t: Term): (r: seq<Term>)
    ensures r == if t.exp == 0 then [Term(Neg(t.coef), 0)] else [Negate(t), ZeroTerm]
  {
    MinusTermContent(t);
    Combined([ZeroTerm, Negate(t)])
  }

  lemma MinusTermContent(t: Term)
    ensures Combined([ZeroTerm, Negate(t)]) ==
      if t.exp == 0 then [Term(Neg(t.coef), 0)] else [Negate(t), ZeroTerm]
  {
    var s := [ZeroTerm, Negate(t)];
    assert s[1..] == [Negate(t)];
    assert SortByExp([Negate(t)]) == [Negate(t)] by {
      assert [Negate(t)][1..] == [];
    }
    assert SortByExp(s) == Insert(ZeroTerm, [Negate(t)]);
    if t.exp == 0 {
      assert SortByExp(s) == s;
      assert s[2..] == [];
      AddZero(Neg(t.coef));
      var h := Term(Add(ZeroTerm.coef, Negate(t).coef), 0);
      assert Merged(s) == Merged([h] + s[2..]);
      assert [h] + s[2..] == [h];
      assert h == Term(Neg(t.coef), 0);
    } else {
      assert [Negate(t)][1..] == [];
      assert Insert(ZeroTerm, [Negate(t)]) == [Negate(t)] + Insert(ZeroTerm, []);
      assert SortByExp(s) == [Negate(t), ZeroTerm];
      assert [Negate(t), ZeroTerm][1..] == [ZeroTerm];
      assert Merged([Negate(t), ZeroTerm]) == [Negate(t)] + Merged([ZeroTerm]);
    }
  }

  /** `p * t` for a term t: every term of p multiplied by t. The coefficient of
      x^e is p's coefficient of x^(e - exp t) times t's where p has that
      exponent, and 0 elsewhere; for a numeric t this is simply p's coefficient
      of x^(e - exp t) times t's. */
  function TimesTermSpec(a: seq<Term>, t: Term): (r: seq<Term>)
    ensures Normal(r) && 0 in Exps(r)
    ensures forall x :: x != 0 ==> (x in Exps(r) <==> x >= t.exp && x - t.exp in Exps(a))
    ensures forall e: nat ::
      Coeff(r, e) == if t.exp <= e && e - t.exp in Exps(a) then Mul(Coeff(a, e - t.exp), t.coef) else Zero
    ensures t.coef.Num? ==> forall e: nat ::
      Coeff(r, e) == if t.exp <= e then Mul(Coeff(a, e - t.exp), t.coef) else Zero
  {
    TimesTermContent(a, t);
    Combined([ZeroTerm] + MapTimes(a, t))
  }

  lemma TimesTermContent(a: seq<Term>, t: Term)
    ensures 0 in Exps(Combined([ZeroTerm] + MapTimes(a, t)))
    ensures forall x :: x != 0 ==>
      (x in Exps(Combined([ZeroTerm] + MapTimes(a, t))) <==> x >= t.exp && x - t.exp in Exps(a))
    ensures forall e: nat ::
      Coeff(Combined([ZeroTerm] + MapTimes(a, t)), e) ==
      if t.exp <= e && e - t.exp in Exps(a) then Mul(Coeff(a, e - t.exp), t.coef) else Zero
    ensures t.coef.Num? ==> forall e: nat ::
      Coeff(Combined([ZeroTerm] + MapTimes(a, t)), e) ==
      if t.exp <= e then Mul(Coeff(a, e - t.exp), t.coef) else Zero
  {
    TimesTermExps(a, t);
    TimesTermCoeffs(a, t);
    if t.coef.Num? {
      TimesTermNumCoeffs(a, t);
    }
  }

  /** Exponents of a*t before zero_remove: x^0 and the shifted exponents of a. */
  lemma TimesTermExps(a: seq<Term>, t: Term)
    ensures 0 in Exps(Combined([ZeroTerm] + MapTimes(a, t)))
    ensures forall x :: x != 0 ==>
      (x in Exps(Combined([ZeroTerm] + MapTimes(a, t))) <==> x >= t.exp && x - t.exp in Exps(a))
  {
    var m := MapTimes(a, t);
    var c := Combined([ZeroTerm] + m);
    ExpsCons(ZeroTerm, m);
    ShiftedExps(a, t, c);
  }

  lemma ShiftedExps(a: seq<Term>, t: Term, c: seq<Term>)
    requires Exps(c) == {0} + Exps(MapTimes(a, t))
    ensures 0 in Exps(c)
    ensures forall x :: x != 0 ==> (x in Exps(c) <==> x >= t.exp && x - t.exp in Exps(a))
  {
    ExpsMapTimes(a, t);
  }

  /** With a numeric t, an exponent missing from a contributes Zero as well. */
  lemma TimesTermNumCoeffs(a: seq<Term>, t: Term)
    requires t.coef.Num?
    ensures forall e: nat ::
      Coeff(Combined([ZeroTerm] + MapTimes(a, t)), e) ==
      if t.exp <= e then Mul(Coeff(a, e - t.exp), t.coef) else Zero
  {
    TimesTermCoeffs(a, t);
    var c := Combined([ZeroTerm] + MapTimes(a, t));
    forall e: nat ensures Coeff(c, e) == if t.exp <= e then Mul(Coeff(a, e - t.exp), t.coef) else Zero {
      if t.exp <= e && e - t.exp !in Exps(a) {
        CoeffAbsent(a, e - t.exp);
      }
    }
  }

  /** Coefficient of x^e in a*t before zero_remove. */
  lemma TimesTermCoeffs(a: seq<Term>, t: Term)
    ensures forall e: nat ::
      Coeff(Combined([ZeroTerm] + MapTimes(a, t)), e) ==
      if t.exp <= e && e - t.exp in Exps(a) then Mul(Coeff(a, e - t.exp), t.coef) else Zero
  {
    var m := MapTimes(a, t);
    var s := [ZeroTerm] + m;
    forall e: nat ensures Coeff(Combined(s), e) == Coeff(m, e) {
      CoeffAppend([ZeroTerm], m, e);
      CoeffSingle(ZeroTerm, e);
      AddZero(Coeff(m, e));
    }
    forall e: nat ensures Coeff(m, e) ==
      if t.exp <= e && e - t.exp in Exps(a) then Mul(Coeff(a, e - t.exp), t.coef) else Zero
    {
      CoeffMapTimes(a, t, e);
    }
  }

  // ---------------------------------------------------------------------------
  // Ring laws, as far as the normal form allows them

  /** `a + b == b + a`. */
  lemma SumCommutes(a: seq<Term>, b: seq<Term>)
    ensures SumSpec(a, b) == SumSpec(b, a)
  {
    forall e: nat ensures Coeff(SumSpec(a, b), e) == Coeff(SumSpec(b, a), e) {
      AddComm(Coeff(a, e), Coeff(b, e));
    }
    NormalUnique(SumSpec(a, b), SumSpec(b, a));
  }

  /** `(a + b) + c == a + (b + c)`. */
  lemma SumAssociates(a: seq<Term>, b: seq<Term>, c: seq<Term>)
    ensures SumSpec(SumSpec(a, b), c) == SumSpec(a, SumSpec(b, c))
  {
    forall e: nat ensures Coeff(SumSpec(SumSpec(a, b), c), e) == Coeff(SumSpec(a, SumSpec(b, c)), e) {
      AddAssoc(Coeff(a, e), Coeff(b, e), Coeff(c, e));
    }
    NormalUnique(SumSpec(SumSpec(a, b), c), SumSpec(a, SumSpec(b, c)));
  }

  /** `a * (b + c)` and `a * b + a * c` have the same coefficient at every
      exponent when a's coefficients are exact; b and c may hold the
      indeterminate value. */
  lemma ProdDistributes(a: seq<Term>, b: seq<Term>, c: seq<Term>)
    requires AllNum(a)
    ensures forall e: nat ::
      Coeff(ProdSpec(a, SumSpec(b, c)), e) == Coeff(SumSpec(ProdSpec(a, b), ProdSpec(a, c)), e)
  {
    forall e: nat
      ensures Coeff(ProdSpec(a, SumSpec(b, c)), e) == Coeff(SumSpec(ProdSpec(a, b), ProdSpec(a, c)), e)
    {
      ConvDistributes(a, b, c, e);
    }
  }

  /** The same law as sequences fails: x^2 * (x + x) keeps the 0*x^2 that the
      default term of x + x raises, while x^2 * x + x^2 * x has no x^2 term. */
  lemma DistributesOnlyByCoefficient()
    ensures ProdSpec([Term(One, 2)], SumSpec([Term(One, 1)], [Term(One, 1)])) !=
      SumSpec(ProdSpec([Term(One, 2)], [Term(One, 1)]), ProdSpec([Term(One, 2)], [Term(One, 1)]))
  {
    var a := [Term(One, 2)];
    var b := [Term(One, 1)];
    var s := SumSpec(b, b);
    var p := ProdSpec(a, b);
    assert 0 in Exps(s);
    var j :| 0 <= j < |s| && s[j].exp == 0;
    assert 2 == a[0].exp + s[j].exp;
    assert 2 in Exps(ProdSpec(a, s));
    assert 2 !in Exps(p);
    assert 2 !in Exps(SumSpec(p, p));
  }

  lemma {:induction false} ConvDistributes(a: seq<Term>, b: seq<Term>, c: seq<Term>, e: nat)
    requires AllNum(a)
    ensures Conv(a, SumSpec(b, c), e) == Add(Conv(a, b, e), Conv(a, c, e))
    decreases |a|
  {
    if a == [] {
      AddZero(Zero);
    } else {
      var a0 := a[..|a| - 1];
      var t := a[|a| - 1];
      ConvDistributes(a0, b, c, e);
      TermDistributes(t, b, c, e);
      AddSwap(Conv(a0, b, e), Conv(a0, c, e), ConvTerm(t, b, e), ConvTerm(t, c, e));
    }
  }

  lemma TermDistributes(t: Term, b: seq<Term>, c: seq<Term>, e: nat)
    requires t.coef.Num?
    ensures ConvTerm(t, SumSpec(b, c), e) == Add(ConvTerm(t, b, e), ConvTerm(t, c, e))
  {
    ConvTermDense(t, b, e);
    ConvTermDense(t, c, e);
    ConvTermDense(t, SumSpec(b, c), e);
    if t.exp <= e {
      MulAddLeft(t.coef, Coeff(b, e - t.exp), Coeff(c, e - t.exp));
    } else {
      AddZero(Zero);
    }
  }

  /** For an exact t, an exponent missing from b contributes t's coefficient times 0. */
  lemma ConvTermDense(t: Term, b: seq<Term>, e: nat)
    requires t.coef.Num?
    ensures ConvTerm(t, b, e) == if t.exp <= e then Mul(t.coef, Coeff(b, e - t.exp)) else Zero
  {
    if t.exp <= e && e - t.exp !in Exps(b) {
      CoeffAbsent(b, e - t.exp);
    }
  }

  lemma AddSwap(w: Coef, x: Coef, y: Coef, z: Coef)
    ensures Add(Add(w, y), Add(x, z)) == Add(Add(w, x), Add(y, z))
  {
  }

  /** `a - a` keeps a zero term for every exponent of a; only after zero_remove
      is it the zero polynomial {0*x^0}. */
  lemma DiffSelfIsZero(a: seq<Term>)
    requires AllNum(a)
    ensures forall e: nat :: e in Exps(a) ==> e in Exps(DiffSpec(a, a)) && Coeff(DiffSpec(a, a), e) == Zero
    ensures ZeroRemoved(DiffSpec(a, a)) == [ZeroTerm]
  {
    var d := DiffSpec(a, a);
    forall e: nat ensures Coeff(d, e) == Zero {
      CoeffNum(a, e);
    }
    AllZeroRemoved(d);
  }

  /** A polynomial whose every coefficient is zero, with an x^0 term, reduces to {0*x^0}. */
  lemma AllZeroRemoved(d: seq<Term>)
    requires d != [] && 0 in Exps(d)
    requires forall e: nat :: Coeff(d, e) == Zero
    ensures ZeroRemoved(d) == [ZeroTerm]
  {
    var r := ZeroRemoved(d);
    RemovedEndsAtZero(d);
    LastIsZeroTerm(r);
    LeadCoeffNonzero(d);
    Singleton(r, ZeroTerm);
  }

  /** zero_remove keeps an x^0 term as its last term. */
  lemma RemovedEndsAtZero(d: seq<Term>)
    requires d != [] && 0 in Exps(d)
    ensures ZeroRemoved(d)[|ZeroRemoved(d)| - 1].exp == 0
  {
    LastExpZero(Combined(d));
  }

  lemma LastIsZeroTerm(r: seq<Term>)
    requires Normal(r) && r != [] && r[|r| - 1].exp == 0 && Coeff(r, 0) == Zero
    ensures r[|r| - 1] == ZeroTerm
  {
    CoeffNormalAt(r, |r| - 1);
  }

  lemma Singleton(r: seq<Term>, t: Term)
    requires |r| == 1 && r[|r| - 1] == t
    ensures r == [t]
  {
  }

  /** A normal polynomial with an x^0 term ends with it. */
  lemma LastExpZero(c: seq<Term>)
    requires Normal(c) && 0 in Exps(c)
    ensures c[|c| - 1].exp == 0
  {
    var j :| 0 <= j < |c| && c[j].exp == 0;
    assert c[|c| - 1].exp <= c[j].exp;
  }
}

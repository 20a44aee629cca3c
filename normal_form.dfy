/** The normal form of a term sequence: strictly decreasing exponents, one term
    per exponent carrying the sum of the coefficients at that exponent.
    `Combined` is what `Polynomial::combine` computes (a sort by descending
    exponent followed by a merge of neighbours with equal exponents);
    `ZeroRemoved` is `zero_remove` and `Filled` is `fill`. */
module NormalForm {
  import opened Coefs
  import opened Terms

  // ---------------------------------------------------------------------------
  // Observations of a term sequence as a polynomial

  /** The coefficient of x^e: the sum of the coefficients of the terms with exponent e. */
  function Coeff(s: seq<Term>, e: nat): Coef {
    if s == [] then Zero
    else if s[0].exp == e then Add(s[0].coef, Coeff(s[1..], e))
    else Coeff(s[1..], e)
  }

  /** The exponents that occur in the sequence. */
  function Exps(s: seq<Term>): set<nat> {
    set i | 0 <= i < |s| :: s[i].exp
  }

  ghost predicate Normal(s: seq<Term>) {
    forall i, j :: 0 <= i < j < |s| ==> s[i].exp > s[j].exp
  }

  ghost predicate SortedDesc(s: seq<Term>) {
    forall i, j :: 0 <= i < j < |s| ==> s[i].exp >= s[j].exp
  }

  ghost predicate AllNum(s: seq<Term>) {
    forall i :: 0 <= i < |s| ==> s[i].coef.Num?
  }

  /** Over exact numbers every coefficient is a number. */
  lemma CoeffNum(s: seq<Term>, e: nat)
    requires AllNum(s)
    ensures Coeff(s, e).Num?
  {
  }

  /** A normal sequence whose coefficients are all numbers has numeric terms. */
  lemma NumFromCoeff(r: seq<Term>)
    requires Normal(r) && forall e :: Coeff(r, e).Num?
    ensures AllNum(r)
  {
    forall k | 0 <= k < |r| ensures r[k].coef.Num? {
      CoeffNormalAt(r, k);
    }
  }

  function MaxExp(s: seq<Term>): (m: nat)
    ensures s != [] ==> m in Exps(s)
    ensures forall i :: 0 <= i < |s| ==> s[i].exp <= m
  {
    if s == [] then 0
    else
      var m := MaxExp(s[1..]);
      assert s[1..] != [] ==> m in Exps(s) by {
        if s[1..] != [] {
          var i :| 0 <= i < |s[1..]| && s[1..][i].exp == m;
          assert s[i + 1].exp == m;
        }
      }
      if s[0].exp >= m then s[0].exp else m
  }

  lemma ExpsEmpty(s: seq<Term>)
    ensures Exps(s) == {} <==> s == []
  {
    if s != [] {
      assert s[0].exp in Exps(s);
    }
  }

  lemma ExpsCons(t: Term, s: seq<Term>)
    ensures Exps([t] + s) == {t.exp} + Exps(s)
  {
    var a := [t] + s;
    forall x | x in Exps(a) ensures x in {t.exp} + Exps(s) {
      var i :| 0 <= i < |a| && a[i].exp == x;
      if i > 0 { assert s[i - 1].exp == x; }
    }
    forall x | x in Exps(s) ensures x in Exps(a) {
      var i :| 0 <= i < |s| && s[i].exp == x;
      assert a[i + 1].exp == x;
    }
    assert a[0].exp == t.exp;
  }

  lemma ExpsAppend(a: seq<Term>, b: seq<Term>)
    ensures Exps(a + b) == Exps(a) + Exps(b)
  {
    var s := a + b;
    forall x | x in Exps(s) ensures x in Exps(a) + Exps(b) {
      var i :| 0 <= i < |s| && s[i].exp == x;
      if i < |a| { assert a[i].exp == x; } else { assert b[i - |a|].exp == x; }
    }
    forall x | x in Exps(a) ensures x in Exps(s) {
      var i :| 0 <= i < |a| && a[i].exp == x;
      assert s[i].exp == x;
    }
    forall x | x in Exps(b) ensures x in Exps(s) {
      var i :| 0 <= i < |b| && b[i].exp == x;
      assert s[i + |a|].exp == x;
    }
  }

  lemma {:induction false} CoeffAppend(a: seq<Term>, b: seq<Term>, e: nat)
    ensures Coeff(a + b, e) == Add(Coeff(a, e), Coeff(b, e))
  {
    if a == [] {
      assert a + b == b;
      AddZero(Coeff(b, e));
    } else {
      assert (a + b)[1..] == a[1..] + b;
      CoeffAppend(a[1..], b, e);
      if a[0].exp == e {
        AddAssoc(a[0].coef, Coeff(a[1..], e), Coeff(b, e));
      }
    }
  }

  lemma CoeffSingle(t: Term, e: nat)
    ensures Coeff([t], e) == if t.exp == e then t.coef else Zero
  {
    assert [t][1..] == [];
    AddZero(t.coef);
  }

  lemma {:induction false} CoeffAbsent(s: seq<Term>, e: nat)
    requires e !in Exps(s)
    ensures Coeff(s, e) == Zero
  {
    if s != [] {
      ExpsCons(s[0], s[1..]);
      assert [s[0]] + s[1..] == s;
      CoeffAbsent(s[1..], e);
    }
  }

  /** In a normal sequence the coefficient of x^(s[k].exp) is the coefficient of s[k]. */
  lemma {:induction false} CoeffNormalAt(s: seq<Term>, k: nat)
    requires Normal(s) && k < |s|
    ensures Coeff(s, s[k].exp) == s[k].coef
  {
    if k == 0 {
      assert s[k].exp !in Exps(s[1..]);
      CoeffAbsent(s[1..], s[k].exp);
      AddZero(s[0].coef);
    } else {
      CoeffNormalAt(s[1..], k - 1);
    }
  }

  // ---------------------------------------------------------------------------
  // Uniqueness of the normal form

  lemma NormalTail(s: seq<Term>)
    requires Normal(s) && s != []
    ensures Normal(s[1..])
    ensures Exps(s[1..]) == Exps(s) - {s[0].exp}
    ensures forall e :: e != s[0].exp ==> Coeff(s[1..], e) == Coeff(s, e)
    ensures Coeff(s[1..], s[0].exp) == Zero
  {
    ExpsCons(s[0], s[1..]);
    assert [s[0]] + s[1..] == s;
    assert s[0].exp !in Exps(s[1..]);
    CoeffAbsent(s[1..], s[0].exp);
  }

  /** The head of a sorted sequence carries its largest exponent. */
  lemma SortedHeadIsMax(s: seq<Term>)
    requires SortedDesc(s) && s != []
    ensures MaxExp(s) == s[0].exp
  {
    var i :| 0 <= i < |s| && s[i].exp == MaxExp(s);
  }

  lemma NormalHeadIsMax(s: seq<Term>)
    requires Normal(s) && s != []
    ensures forall x :: x in Exps(s) ==> x <= s[0].exp
  {
  }

  /** Two normal sequences with the same exponents and the same coefficients are equal. */
  lemma {:induction false} NormalUnique(a: seq<Term>, b: seq<Term>)
    requires Normal(a) && Normal(b)
    requires Exps(a) == Exps(b)
    requires forall e :: Coeff(a, e) == Coeff(b, e)
    ensures a == b
  {
    ExpsEmpty(a);
    ExpsEmpty(b);
    if a != [] {
      assert a[0].exp in Exps(a);
      assert b != [];
      assert b[0].exp in Exps(b);
      NormalHeadIsMax(a);
      NormalHeadIsMax(b);
      assert a[0].exp == b[0].exp;
      CoeffNormalAt(a, 0);
      CoeffNormalAt(b, 0);
      NormalTail(a);
      NormalTail(b);
      forall e ensures Coeff(a[1..], e) == Coeff(b[1..], e) {
        if e != a[0].exp {
          assert Coeff(a, e) == Coeff(b, e);
        }
      }
      NormalUnique(a[1..], b[1..]);
      assert a == [a[0]] + a[1..] && b == [b[0]] + b[1..];
    }
  }

  // ---------------------------------------------------------------------------
  // The sort (std::sort by descending exponent; library code, modelled as an
  // insertion sort) and the merge of equal neighbours

  function Insert(t: Term, s: seq<Term>): seq<Term>
    decreases |s|
  {
    if s == [] then [t]
    else if t.exp >= s[0].exp then [t] + s
    else [s[0]] + Insert(t, s[1..])
  }

  function SortByExp(s: seq<Term>): seq<Term>
    decreases |s|
  {
    if s == [] then [] else Insert(s[0], SortByExp(s[1..]))
  }

  /** Putting a term in front of a sorted sequence whose head it does not undercut. */
  lemma ConsSorted(x: Term, r: seq<Term>)
    requires SortedDesc(r) && (r != [] ==> x.exp >= r[0].exp)
    ensures SortedDesc([x] + r)
  {
    var m := [x] + r;
    forall i, j | 0 <= i < j < |m| ensures m[i].exp >= m[j].exp {
      if i == 0 {
        assert m[j] == r[j - 1];
        assert r[0].exp >= r[j - 1].exp;
      } else {
        assert m[i] == r[i - 1] && m[j] == r[j - 1];
      }
    }
  }

  lemma {:induction false} InsertShape(t: Term, s: seq<Term>)
    ensures |Insert(t, s)| == |s| + 1
    ensures Insert(t, s)[0] == t || Insert(t, s)[0] == s[0]
    decreases |s|
  {
    if s != [] && t.exp < s[0].exp {
      InsertShape(t, s[1..]);
    }
  }

  lemma {:induction false} InsertSorted(t: Term, s: seq<Term>)
    requires SortedDesc(s)
    ensures SortedDesc(Insert(t, s))
    decreases |s|
  {
    if s == [] {
      assert Insert(t, s) == [t];
    } else if t.exp >= s[0].exp {
      ConsSorted(t, s);
    } else {
      var r := Insert(t, s[1..]);
      assert SortedDesc(s[1..]);
      InsertSorted(t, s[1..]);
      InsertShape(t, s[1..]);
      assert r[0] == t || r[0] == s[1];
      ConsSorted(s[0], r);
    }
  }

  lemma {:induction false} InsertContent(t: Term, s: seq<Term>)
    ensures Exps(Insert(t, s)) == {t.exp} + Exps(s)
    ensures forall e :: Coeff(Insert(t, s), e) == Coeff([t] + s, e)
    decreases |s|
  {
    ExpsCons(t, s);
    if s != [] && t.exp < s[0].exp {
      var r := Insert(t, s[1..]);
      InsertContent(t, s[1..]);
      assert Insert(t, s) == [s[0]] + r;
      ExpsCons(s[0], r);
      ExpsCons(t, s[1..]);
      ExpsCons(s[0], s[1..]);
      assert [s[0]] + s[1..] == s;
      forall e ensures Coeff(Insert(t, s), e) == Coeff([t] + s, e) {
        CoeffAppend([s[0]], r, e);
        CoeffAppend([t], s[1..], e);
        CoeffAppend([t], s, e);
        CoeffAppend([s[0]], s[1..], e);
        var x, y, z := Coeff([s[0]], e), Coeff([t], e), Coeff(s[1..], e);
        AddAssoc(x, y, z);
        AddAssoc(y, x, z);
        AddComm(x, y);
      }
    }
  }

  lemma {:induction false} SortByExpProps(s: seq<Term>)
    ensures SortedDesc(SortByExp(s))
    ensures |SortByExp(s)| == |s|
    ensures Exps(SortByExp(s)) == Exps(s)
    ensures forall e :: Coeff(SortByExp(s), e) == Coeff(s, e)
  {
    if s != [] {
      SortByExpProps(s[1..]);
      var r := SortByExp(s[1..]);
      InsertSorted(s[0], r);
      InsertShape(s[0], r);
      InsertContent(s[0], r);
      ExpsCons(s[0], r);
      ExpsCons(s[0], s[1..]);
      assert [s[0]] + s[1..] == s;
      forall e ensures Coeff(SortByExp(s), e) == Coeff(s, e) {
        CoeffAppend([s[0]], r, e);
        CoeffAppend([s[0]], s[1..], e);
      }
    }
  }

  /** The merge pass of `combine`: a term whose exponent equals that of the
      term before it is added into that term and erased. */
  function Merged(s: seq<Term>): seq<Term>
    decreases |s|
  {
    if |s| < 2 then s
    else if s[0].exp == s[1].exp then Merged([Term(Add(s[0].coef, s[1].coef), s[0].exp)] + s[2..])
    else [s[0]] + Merged(s[1..])
  }

  /** Putting a term in front of a normal sequence of lower exponents. */
  lemma ConsNormal(x: Term, r: seq<Term>)
    requires Normal(r) && forall e :: e in Exps(r) ==> x.exp > e
    ensures Normal([x] + r)
  {
    var m := [x] + r;
    forall i, j | 0 <= i < j < |m| ensures m[i].exp > m[j].exp {
      if i == 0 {
        assert m[j] == r[j - 1];
        assert m[j].exp in Exps(r);
      } else {
        assert m[i] == r[i - 1] && m[j] == r[j - 1];
      }
    }
  }

  /** The first merge case: the two leading terms fused into one. */
  lemma FuseSorted(s: seq<Term>)
    requires SortedDesc(s) && |s| >= 2 && s[0].exp == s[1].exp
    ensures SortedDesc([Term(Add(s[0].coef, s[1].coef), s[0].exp)] + s[2..])
  {
    var u := [Term(Add(s[0].coef, s[1].coef), s[0].exp)] + s[2..];
    forall i, j | 0 <= i < j < |u| ensures u[i].exp >= u[j].exp {
      assert u[j] == s[j + 1];
      if i > 0 { assert u[i] == s[i + 1]; }
    }
  }

  lemma {:induction false} FuseContent(s: seq<Term>)
    requires |s| >= 2 && s[0].exp == s[1].exp
    ensures Exps([Term(Add(s[0].coef, s[1].coef), s[0].exp)] + s[2..]) == Exps(s)
    ensures forall e :: Coeff([Term(Add(s[0].coef, s[1].coef), s[0].exp)] + s[2..], e) == Coeff(s, e)
  {
    var h := Term(Add(s[0].coef, s[1].coef), s[0].exp);
    var u := [h] + s[2..];
    ExpsCons(h, s[2..]);
    ExpsCons(s[1], s[2..]);
    ExpsCons(s[0], s[1..]);
    assert [s[0]] + s[1..] == s;
    assert [s[1]] + s[2..] == s[1..];
    forall e ensures Coeff(u, e) == Coeff(s, e) {
      assert u[1..] == s[2..];
      assert s[1..][1..] == s[2..];
      if e == s[0].exp {
        AddAssoc(s[0].coef, s[1].coef, Coeff(s[2..], e));
      }
    }
  }

  lemma {:induction false} MergedContent(s: seq<Term>)
    ensures |Merged(s)| <= |s|
    ensures s != [] ==> Merged(s) != [] && Merged(s)[0].exp == s[0].exp
    ensures Exps(Merged(s)) == Exps(s)
    ensures forall e :: Coeff(Merged(s), e) == Coeff(s, e)
    decreases |s|
  {
    if |s| >= 2 {
      if s[0].exp == s[1].exp {
        var u := [Term(Add(s[0].coef, s[1].coef), s[0].exp)] + s[2..];
        MergedContent(u);
        FuseContent(s);
      } else {
        var r := Merged(s[1..]);
        MergedContent(s[1..]);
        assert Merged(s) == [s[0]] + r;
        ExpsCons(s[0], r);
        ExpsCons(s[0], s[1..]);
        assert [s[0]] + s[1..] == s;
        forall e ensures Coeff(Merged(s), e) == Coeff(s, e) {
          assert ([s[0]] + r)[1..] == r;
        }
      }
    }
  }

  lemma {:induction false} MergedNormal(s: seq<Term>)
    requires SortedDesc(s)
    ensures Normal(Merged(s))
    decreases |s|
  {
    if |s| < 2 {
      assert Merged(s) == s;
    } else if s[0].exp == s[1].exp {
      FuseSorted(s);
      MergedNormal([Term(Add(s[0].coef, s[1].coef), s[0].exp)] + s[2..]);
    } else {
      var r := Merged(s[1..]);
      assert SortedDesc(s[1..]);
      MergedNormal(s[1..]);
      MergedContent(s[1..]);
      assert Merged(s) == [s[0]] + r;
      forall e | e in Exps(r) ensures s[0].exp > e {
        var k :| 0 <= k < |s[1..]| && s[1..][k].exp == e;
        assert s[1].exp >= s[k + 1].exp;
      }
      ConsNormal(s[0], r);
    }
  }

  /** `combine`: sort by descending exponent, then merge equal exponents. */
  function Combined(s: seq<Term>): (r: seq<Term>)
    ensures Normal(r)
    ensures |r| <= |s|
    ensures r == [] <==> s == []
    ensures Exps(r) == Exps(s)
    ensures forall e :: Coeff(r, e) == Coeff(s, e)
  {
    SortByExpProps(s);
    MergedNormal(SortByExp(s));
    MergedContent(SortByExp(s));
    ExpsEmpty(s);
    ExpsEmpty(Merged(SortByExp(s)));
    Merged(SortByExp(s))
  }

  /** A normal sequence is its own normal form. */
  lemma CombinedNormal(s: seq<Term>)
    requires Normal(s)
    ensures Combined(s) == s
  {
    NormalUnique(Combined(s), s);
  }

  /** Sequences with the same exponents and coefficients have the same normal
      form; in particular the order in which the sort leaves equal exponents
      does not matter. */
  lemma CombinedCongruent(a: seq<Term>, b: seq<Term>)
    requires Exps(a) == Exps(b)
    requires forall e :: Coeff(a, e) == Coeff(b, e)
    ensures Combined(a) == Combined(b)
  {
    NormalUnique(Combined(a), Combined(b));
  }

  /** `combine` is idempotent. */
  lemma CombineIdempotent(s: seq<Term>)
    ensures Combined(Combined(s)) == Combined(s)
  {
    CombinedNormal(Combined(s));
  }

  /** Appending to a combined sequence and combining again is combining once:
      the invariant of `addTerm` loops. */
  lemma CombinedAppend(s: seq<Term>, t: seq<Term>)
    ensures Combined(Combined(s) + t) == Combined(s + t)
  {
    ExpsAppend(Combined(s), t);
    ExpsAppend(s, t);
    forall e ensures Coeff(Combined(s) + t, e) == Coeff(s + t, e) {
      CoeffAppend(Combined(s), t, e);
      CoeffAppend(s, t, e);
    }
    CombinedCongruent(Combined(s) + t, s + t);
  }

  // ---------------------------------------------------------------------------
  // zero_remove

  /** The erase loop of `zero_remove`: every zero term is dropped except the
      last term, which the loop never inspects. */
  function Pruned(s: seq<Term>): seq<Term>
    decreases |s|
  {
    if |s| <= 1 then s
    else if s[0].coef == Zero then Pruned(s[1..])
    else [s[0]] + Pruned(s[1..])
  }

  lemma {:induction false} PrunedShape(s: seq<Term>)
    requires s != []
    ensures Pruned(s) != []
    ensures Pruned(s)[|Pruned(s)| - 1] == s[|s| - 1]
    ensures forall k :: 0 <= k < |Pruned(s)| - 1 ==> Pruned(s)[k].coef != Zero
    decreases |s|
  {
    if |s| > 1 {
      PrunedShape(s[1..]);
      var r := Pruned(s[1..]);
      assert s[1..][|s[1..]| - 1] == s[|s| - 1];
      if s[0].coef != Zero {
        var m := [s[0]] + r;
        assert Pruned(s) == m;
        assert m[|m| - 1] == r[|r| - 1];
        forall k | 0 <= k < |m| - 1 ensures m[k].coef != Zero {
          if k > 0 { assert m[k] == r[k - 1]; }
        }
      }
    }
  }

  lemma {:induction false} PrunedContent(s: seq<Term>)
    ensures Exps(Pruned(s)) <= Exps(s)
    ensures forall e :: Coeff(Pruned(s), e) == Coeff(s, e)
    decreases |s|
  {
    if |s| > 1 {
      PrunedContent(s[1..]);
      var r := Pruned(s[1..]);
      ExpsCons(s[0], s[1..]);
      assert [s[0]] + s[1..] == s;
      if s[0].coef == Zero {
        forall e ensures Coeff(r, e) == Coeff(s, e) {
          AddZero(Coeff(s[1..], e));
        }
      } else {
        var m := [s[0]] + r;
        assert Pruned(s) == m;
        ExpsCons(s[0], r);
        forall e ensures Coeff(m, e) == Coeff(s, e) {
          assert m[1..] == r;
        }
      }
    }
  }

  lemma {:induction false} PrunedNormal(s: seq<Term>)
    requires Normal(s)
    ensures Normal(Pruned(s))
    decreases |s|
  {
    if |s| > 1 {
      NormalTail(s);
      PrunedNormal(s[1..]);
      PrunedContent(s[1..]);
      var r := Pruned(s[1..]);
      if s[0].coef != Zero {
        assert Pruned(s) == [s[0]] + r;
        forall e | e in Exps(r) ensures s[0].exp > e {
          var k :| 0 <= k < |s[1..]| && s[1..][k].exp == e;
          assert s[0].exp > s[k + 1].exp;
        }
        ConsNormal(s[0], r);
      }
    }
  }

  /** A sequence whose terms other than the last are nonzero is left as it is. */
  lemma {:induction false} PrunedFixed(s: seq<Term>)
    requires forall k :: 0 <= k < |s| - 1 ==> s[k].coef != Zero
    ensures Pruned(s) == s
    decreases |s|
  {
    if |s| > 1 {
      PrunedFixed(s[1..]);
    }
  }

  /** Zero terms at the front, before the last term, are all dropped. */
  lemma {:induction false} PrunedSkipsZeros(s: seq<Term>, j: nat)
    requires j < |s| - 1
    requires forall k :: 0 <= k <= j ==> s[k].coef == Zero
    ensures Pruned(s) == Pruned(s[j + 1..])
  {
    if j > 0 {
      PrunedSkipsZeros(s[1..], j - 1);
      assert s[1..][j..] == s[j + 1..];
    }
  }

  /** `zero_remove`: combine, then drop the zero terms except the last one. */
  function ZeroRemoved(s: seq<Term>): (r: seq<Term>)
    requires s != []
    ensures r != [] && Normal(r)
    ensures forall k :: 0 <= k < |r| - 1 ==> r[k].coef != Zero
    ensures r[|r| - 1] == Combined(s)[|Combined(s)| - 1]
    ensures Exps(r) <= Exps(s)
    ensures forall e :: Coeff(r, e) == Coeff(s, e)
  {
    PrunedShape(Combined(s));
    PrunedContent(Combined(s));
    PrunedNormal(Combined(s));
    Pruned(Combined(s))
  }

  /** After zero_remove, a first term that is not the only one has a nonzero
      coefficient, which is the coefficient of its exponent in the input. */
  lemma LeadCoeffNonzero(m: seq<Term>)
    requires m != []
    ensures |ZeroRemoved(m)| > 1 ==> Coeff(m, ZeroRemoved(m)[0].exp) != Zero
  {
    var z := ZeroRemoved(m);
    if |z| > 1 {
      CoeffNormalAt(z, 0);
    }
  }

  /** Degree of the normalised polynomial. */
  function Degree(s: seq<Term>): nat
    requires s != []
  {
    ZeroRemoved(s)[0].exp
  }

  function LeadCoef(s: seq<Term>): Coef
    requires s != []
  {
    ZeroRemoved(s)[0].coef
  }

  lemma ZeroRemovedIdempotent(s: seq<Term>)
    requires s != []
    ensures ZeroRemoved(ZeroRemoved(s)) == ZeroRemoved(s)
    ensures ZeroRemoved(Combined(s)) == ZeroRemoved(s)
  {
    var r := ZeroRemoved(s);
    CombinedNormal(r);
    PrunedFixed(r);
    CombineIdempotent(s);
  }

  /** The degree after zero_remove never exceeds the largest exponent present. */
  lemma DegreeAtMostMax(s: seq<Term>)
    requires s != []
    ensures Degree(s) <= MaxExp(s)
  {
    var r := ZeroRemoved(s);
    assert r[0].exp in Exps(r);
  }

  /** zero_remove never inspects the last term: the zero term of 1*x^2 + 0*x^1
      survives. */
  lemma TrailingZeroSurvives()
    ensures ZeroRemoved([Term(One, 2), Term(Zero, 1)]) == [Term(One, 2), Term(Zero, 1)]
  {
    var s := [Term(One, 2), Term(Zero, 1)];
    assert Normal(s);
    CombinedNormal(s);
    PrunedFixed(s);
  }

  // ---------------------------------------------------------------------------
  // fill

  /** The terms 0*x^(n-1) ... 0*x^0 that `fill` adds, in the order it adds them. */
  function Zeros(n: nat): seq<Term> {
    if n == 0 then [] else Zeros(n - 1) + [Term(Zero, n - 1)]
  }

  lemma {:induction false} ZerosProps(n: nat)
    ensures forall j: nat :: j in Exps(Zeros(n)) <==> j < n
    ensures forall e :: Coeff(Zeros(n), e) == Zero
  {
    if n > 0 {
      ZerosProps(n - 1);
      ExpsAppend(Zeros(n - 1), [Term(Zero, n - 1)]);
      assert Exps([Term(Zero, n - 1)]) == {n - 1} by {
        assert [Term(Zero, n - 1)][0].exp == n - 1;
      }
      forall e ensures Coeff(Zeros(n), e) == Zero {
        CoeffAppend(Zeros(n - 1), [Term(Zero, n - 1)], e);
        CoeffSingle(Term(Zero, n - 1), e);
      }
    }
  }

  /** Read from the end, a normal sequence has exponents at least 0, 1, 2, ... */
  lemma {:induction false} NormalFromEnd(t: seq<Term>)
    requires Normal(t)
    ensures forall k :: 0 <= k < |t| ==> t[k].exp >= |t| - 1 - k
  {
    if t != [] {
      NormalTail(t);
      NormalFromEnd(t[1..]);
      forall k | 0 <= k < |t| ensures t[k].exp >= |t| - 1 - k {
        if k > 0 {
          assert t[k] == t[1..][k - 1];
        } else if |t| > 1 {
          assert t[1] == t[1..][0];
        }
      }
    }
  }

  /** A normal sequence containing every exponent below n ends in x^(n-1) ... x^0. */
  lemma {:induction false} BottomAligned(t: seq<Term>, n: nat)
    requires Normal(t)
    requires forall j: nat :: j < n ==> j in Exps(t)
    ensures |t| >= n
    ensures forall k :: |t| - n <= k < |t| ==> t[k].exp == |t| - 1 - k
  {
    if n > 0 {
      BottomAligned(t, n - 1);
      assert n - 1 in Exps(t);
      var idx :| 0 <= idx < |t| && t[idx].exp == n - 1;
      assert idx <= |t| - n;
      if n == 1 {
        assert t[|t| - 1].exp <= t[idx].exp;
      } else {
        assert t[|t| - n].exp > t[|t| - n + 1].exp;
        assert t[idx].exp >= t[|t| - n].exp;
      }
    }
  }

  /** A normal sequence with no exponent above m has at most m+1 terms. */
  lemma NormalLengthBound(t: seq<Term>, m: nat)
    requires Normal(t)
    requires forall k :: 0 <= k < |t| ==> t[k].exp <= m
    ensures |t| <= m + 1
  {
    NormalFromEnd(t);
    if t != [] {
      assert t[0].exp >= |t| - 1;
    }
  }

  lemma FilledContent(s: seq<Term>, i: nat)
    requires s != [] && i <= MaxExp(s) + 1
    ensures forall j: nat :: j in Exps(Combined(s + Zeros(i))) <==> j in Exps(s) || j < i
    ensures forall e :: Coeff(Combined(s + Zeros(i)), e) == Coeff(s, e)
    ensures forall k :: 0 <= k < |Combined(s + Zeros(i))| ==> Combined(s + Zeros(i))[k].exp <= MaxExp(s)
  {
    var r := Combined(s + Zeros(i));
    ExpsAppend(s, Zeros(i));
    ZerosProps(i);
    forall e ensures Coeff(r, e) == Coeff(s, e) {
      CoeffAppend(s, Zeros(i), e);
      AddZero(Coeff(s, e));
    }
    forall k | 0 <= k < |r| ensures r[k].exp <= MaxExp(s) {
      assert r[k].exp in Exps(r);
      if r[k].exp in Exps(s) {
        var x :| 0 <= x < |s| && s[x].exp == r[k].exp;
      }
    }
  }

  /** While exponent i is below the maximum, the padded sequence is longer than i:
      the re-read bound of the `fill` loop keeps it running. */
  lemma FillProgress(s: seq<Term>, i: nat)
    requires s != [] && 0 < i <= MaxExp(s)
    ensures |Combined(s + Zeros(i))| > i
  {
    var r := Combined(s + Zeros(i));
    FilledContent(s, i);
    var m := MaxExp(s);
    BottomAligned(r, i);
    assert m in Exps(r);
    var x :| 0 <= x < |r| && r[x].exp == m;
    assert x < |r| - i;
  }

  lemma FilledShape(s: seq<Term>, r: seq<Term>)
    requires s != [] && r == Combined(s + Zeros(MaxExp(s) + 1))
    ensures |r| == MaxExp(s) + 1
    ensures forall k :: 0 <= k < |r| ==> r[k].exp == MaxExp(s) - k && r[k].coef == Coeff(s, MaxExp(s) - k)
  {
    var m := MaxExp(s);
    FilledContent(s, m + 1);
    assert forall j: nat :: j < m + 1 ==> j in Exps(r);
    BottomAligned(r, m + 1);
    NormalLengthBound(r, m);
    forall k | 0 <= k < |r| ensures r[k].coef == Coeff(s, m - k) {
      CoeffNormalAt(r, k);
    }
  }

  /** `fill`: one term for every exponent from the maximum down to 0. */
  function Filled(s: seq<Term>): (r: seq<Term>)
    ensures s == [] ==> r == []
    ensures s != [] ==> |r| == MaxExp(s) + 1
    ensures s != [] ==> forall k :: 0 <= k < |r| ==>
      r[k].exp == MaxExp(s) - k && r[k].coef == Coeff(s, MaxExp(s) - k)
    ensures Normal(r) && forall e :: Coeff(r, e) == Coeff(s, e)
  {
    if s == [] then []
    else
      var r := Combined(s + Zeros(MaxExp(s) + 1));
      FilledShape(s, r);
      FilledContent(s, MaxExp(s) + 1);
      r
  }
}

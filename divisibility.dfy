/** Exact divisibility of polynomials, and what it says about `&` and `|`.
    Over exact numbers g divides p when some polynomial h makes h * g equal
    to p at every exponent; the product coefficient is `PolyConv` of the long
    division, which is proved to be the coefficient `*` computes. */
module Divisibility {
  import opened Coefs
  import opened Terms
  import opened NormalForm
  import opened Ring
  import opened LongDivision
  import opened Euclid

  /** p equals h * g coefficient by coefficient, in reals. */
  ghost predicate Multiple(p: seq<Term>, h: seq<Term>, g: seq<Term>) {
    forall e: nat :: Re(Coeff(p, e)) == PolyConv(h, g, e)
  }

  /** g divides p over exact numbers. */
  ghost predicate Divides(g: seq<Term>, p: seq<Term>) {
    AllNum(g) && AllNum(p) && exists h :: AllNum(h) && Multiple(p, h, g)
  }

  /** The same real coefficient at every exponent. */
  ghost predicate SameValues(p: seq<Term>, q: seq<Term>) {
    forall e: nat :: Re(Coeff(p, e)) == Re(Coeff(q, e))
  }

  // ---------------------------------------------------------------------------
  // The product coefficient

  /** The coefficient `*` computes is the real product coefficient. */
  lemma {:induction false} ConvIsPolyConv(a: seq<Term>, b: seq<Term>, e: nat)
    requires AllNum(a) && AllNum(b)
    ensures Conv(a, b, e).Num?
    ensures Re(Conv(a, b, e)) == PolyConv(a, b, e)
    decreases |a|
  {
    if a != [] {
      var n := |a| - 1;
      PrefixNum(a, n);
      ConvIsPolyConv(a[..n], b, e);
      ConvLast(a, b, e);
    }
  }

  lemma PrefixNum(a: seq<Term>, n: nat)
    requires AllNum(a) && n <= |a|
    ensures AllNum(a[..n])
  {
  }

  /** The last step of both product coefficients: each adds the last term's
      contribution, and over exact numbers the two contributions agree. */
  lemma ConvLast(a: seq<Term>, b: seq<Term>, e: nat)
    requires a != [] && AllNum(a) && AllNum(b)
    ensures Conv(a, b, e) == Add(Conv(a[..|a| - 1], b, e), ConvTerm(a[|a| - 1], b, e))
    ensures ConvTerm(a[|a| - 1], b, e).Num?
    ensures PolyConv(a, b, e) == PolyConv(a[..|a| - 1], b, e) + Re(ConvTerm(a[|a| - 1], b, e))
  {
    PolyConvLast(a, b, e);
  }

  lemma PolyConvLast(a: seq<Term>, b: seq<Term>, e: nat)
    requires a != [] && AllNum(a) && AllNum(b)
    ensures ConvTerm(a[|a| - 1], b, e).Num?
    ensures PolyConv(a, b, e) == PolyConv(a[..|a| - 1], b, e) + Re(ConvTerm(a[|a| - 1], b, e))
  {
    var t := a[|a| - 1];
    var r := t.coef.r;
    if t.exp <= e {
      var y := e - t.exp;
      CoeffNum(b, y);
      var d := Coeff(b, y).r;
      assert Below(b, e, t.exp) == d;
      if y in Exps(b) {
        assert ConvTerm(t, b, e) == Num(r * d);
      } else {
        CoeffAbsent(b, y);
        assert ConvTerm(t, b, e) == Zero && d == 0.0;
      }
    } else {
      assert ConvTerm(t, b, e) == Zero && Below(b, e, t.exp) == 0.0;
    }
  }

  /** The product `*` returns is a multiple of either operand. */
  lemma ProdIsMultiple(h: seq<Term>, g: seq<Term>)
    requires AllNum(h) && AllNum(g)
    ensures AllNum(ProdSpec(h, g))
    ensures Multiple(ProdSpec(h, g), h, g)
  {
    var p := ProdSpec(h, g);
    forall e: nat ensures Coeff(p, e).Num? && Re(Coeff(p, e)) == PolyConv(h, g, e) {
      ConvIsPolyConv(h, g, e);
    }
    NumFromCoeff(p);
  }

  lemma {:induction false} PolyConvAppend(h1: seq<Term>, h2: seq<Term>, g: seq<Term>, e: nat)
    ensures PolyConv(h1 + h2, g, e) == PolyConv(h1, g, e) + PolyConv(h2, g, e)
    decreases |h2|
  {
    if h2 == [] {
      assert h1 + h2 == h1;
    } else {
      var n := |h2| - 1;
      var s := h1 + h2;
      assert s[..|s| - 1] == h1 + h2[..n];
      assert s[|s| - 1] == h2[n];
      PolyConvAppend(h1, h2[..n], g, e);
    }
  }

  /** Multiplying the left factor by a term t shifts the product by exp t
      and scales it by coef t. */
  lemma {:induction false} RowConv(t: Term, h: seq<Term>, g: seq<Term>, e: nat)
    ensures PolyConv(Row(t, h), g, e) == if t.exp <= e then Re(t.coef) * PolyConv(h, g, e - t.exp) else 0.0
    decreases |h|
  {
    var r := Row(t, h);
    if h == [] {
      assert r == [];
    } else {
      var n := |h| - 1;
      assert r[..n] == Row(t, h[..n]);
      RowConv(t, h[..n], g, e);
      RowLast(t, h[n], g, e);
      if t.exp <= e {
        RowStep(t, h, g, e, e - t.exp);
      }
    }
  }

  /** The inductive step of `RowConv` below e. */
  lemma RowStep(t: Term, h: seq<Term>, g: seq<Term>, e: nat, e2: nat)
    requires h != [] && e2 == e - t.exp
    ensures Re(t.coef) * PolyConv(h[..|h| - 1], g, e2) +
      Re(t.coef) * (Re(h[|h| - 1].coef) * Below(g, e2, h[|h| - 1].exp)) == Re(t.coef) * PolyConv(h, g, e2)
  {
    var n := |h| - 1;
    var p := PolyConv(h[..n], g, e2);
    var w := Re(h[n].coef) * Below(g, e2, h[n].exp);
    assert PolyConv(h, g, e2) == p + w;
    Distribute(Re(t.coef), p, w);
  }

  /** The contribution of one product term t * u. */
  lemma RowLast(t: Term, u: Term, g: seq<Term>, e: nat)
    ensures Re(Times(t, u).coef) * Below(g, e, Times(t, u).exp) ==
      if t.exp <= e then Re(t.coef) * (Re(u.coef) * Below(g, e - t.exp, u.exp)) else 0.0
  {
    var k := Re(t.coef);
    var c := Re(u.coef);
    assert Re(Times(t, u).coef) == k * c;
    if t.exp <= e {
      var w := Below(g, e - t.exp, u.exp);
      assert Below(g, e, t.exp + u.exp) == w;
      assert (k * c) * w == k * (c * w);
    } else {
      assert Below(g, e, t.exp + u.exp) == 0.0;
    }
  }

  lemma Distribute(k: real, p: real, w: real)
    ensures k * p + k * w == k * (p + w)
  {
  }

  /** Row and cross products of exact numbers are exact numbers. */
  lemma RowNum(t: Term, h: seq<Term>)
    requires t.coef.Num? && AllNum(h)
    ensures AllNum(Row(t, h))
  {
  }

  lemma {:induction false} CrossNum(q: seq<Term>, h: seq<Term>)
    requires AllNum(q) && AllNum(h)
    ensures AllNum(Cross(q, h))
    decreases |q|
  {
    if q != [] {
      var n := |q| - 1;
      CrossNum(q[..n], h);
      RowNum(q[n], h);
    }
  }

  /** With y = h * g, q * y = (q * h) * g: the cross product of q and h is a
      left factor for g. */
  lemma {:induction false} CrossConv(q: seq<Term>, y: seq<Term>, h: seq<Term>, g: seq<Term>, e: nat)
    requires Multiple(y, h, g)
    ensures PolyConv(q, y, e) == PolyConv(Cross(q, h), g, e)
    decreases |q|
  {
    if q != [] {
      var n := |q| - 1;
      CrossConv(q[..n], y, h, g, e);
      PolyConvAppend(Cross(q[..n], h), Row(q[n], h), g, e);
      CrossStep(q, y, h, g, e);
    }
  }

  /** The last term of q contributes to q * y what its row contributes to
      (q * h) * g. */
  lemma CrossStep(q: seq<Term>, y: seq<Term>, h: seq<Term>, g: seq<Term>, e: nat)
    requires q != [] && Multiple(y, h, g)
    ensures PolyConv(q, y, e) == PolyConv(q[..|q| - 1], y, e) + PolyConv(Row(q[|q| - 1], h), g, e)
  {
    var t := q[|q| - 1];
    RowConv(t, h, g, e);
    if t.exp <= e {
      assert Below(y, e, t.exp) == PolyConv(h, g, e - t.exp);
    } else {
      assert Below(y, e, t.exp) == 0.0;
    }
  }

  /** The product depends on the right factor only through its coefficients. */
  lemma {:induction false} SecondCongruent(h: seq<Term>, g: seq<Term>, r: seq<Term>, e: nat)
    requires SameValues(r, g)
    ensures PolyConv(h, r, e) == PolyConv(h, g, e)
    decreases |h|
  {
    if h != [] {
      SecondCongruent(h[..|h| - 1], g, r, e);
      BelowSame(g, r, e, h[|h| - 1].exp);
    }
  }

  /** Equal coefficients give equal values below e. */
  lemma BelowSame(g: seq<Term>, r: seq<Term>, e: nat, x: nat)
    requires SameValues(r, g)
    ensures Below(r, e, x) == Below(g, e, x)
  {
    if x <= e {
      assert Re(Coeff(r, e - x)) == Re(Coeff(g, e - x));
    }
  }

  // ---------------------------------------------------------------------------
  // The product coefficient as a sum over exponents

  /** The product contribution of x^x in q times x^(e - x) in b. */
  function Pair(q: seq<Term>, b: seq<Term>, e: nat, x: nat): real {
    if x <= e then Re(Coeff(q, x)) * Re(Coeff(b, e - x)) else 0.0
  }

  /** The sum of the contributions of the exponents lo .. hi - 1 of q. */
  function Window(q: seq<Term>, b: seq<Term>, e: nat, lo: nat, hi: nat): real
    decreases hi - lo
  {
    if hi <= lo then 0.0 else Window(q, b, e, lo, hi - 1) + Pair(q, b, e, hi - 1)
  }

  /** Peeling the lowest exponent of a window. */
  lemma {:induction false} WindowFront(q: seq<Term>, b: seq<Term>, e: nat, lo: nat, hi: nat)
    requires lo < hi
    ensures Window(q, b, e, lo, hi) == Pair(q, b, e, lo) + Window(q, b, e, lo + 1, hi)
    decreases hi - lo
  {
    if lo + 1 < hi {
      WindowFront(q, b, e, lo, hi - 1);
    }
  }

  /** Appending a term t to q adds its contribution at x^(exp t). */
  lemma PairSnoc(q: seq<Term>, t: Term, b: seq<Term>, e: nat, x: nat)
    requires AllNum(q) && t.coef.Num?
    ensures Pair(q + [t], b, e, x) == Pair(q, b, e, x) + if t.exp == x then Re(t.coef) * Below(b, e, x) else 0.0
  {
    if x <= e {
      var w := Re(Coeff(b, e - x));
      var c := Re(Coeff(q, x));
      var d := if t.exp == x then Re(t.coef) else 0.0;
      assert Re(Coeff(q + [t], x)) == c + d by {
        CoeffAppend(q, [t], x);
        CoeffSingle(t, x);
        CoeffNum(q, x);
      }
      AddedFactor(Pair(q + [t], b, e, x), Pair(q, b, e, x), c, d, w);
      assert Below(b, e, x) == w;
    } else {
      assert Below(b, e, x) == 0.0;
    }
  }

  lemma AddedFactor(v: real, u: real, c: real, d: real, w: real)
    requires v == (c + d) * w && u == c * w
    ensures v == u + d * w
  {
  }

  /** Appending a term t to q adds its contribution to every window that
      covers exp t. */
  lemma {:induction false} WindowSnoc(q: seq<Term>, t: Term, b: seq<Term>, e: nat, hi: nat)
    requires AllNum(q) && t.coef.Num?
    ensures Window(q + [t], b, e, 0, hi) ==
      Window(q, b, e, 0, hi) + if t.exp < hi then Re(t.coef) * Below(b, e, t.exp) else 0.0
  {
    if hi > 0 {
      var x := hi - 1;
      WindowSnoc(q, t, b, e, x);
      PairSnoc(q, t, b, e, x);
    }
  }

  /** For exact q, the product coefficient at x^e is the sum over the
      exponents 0 .. e. */
  lemma {:induction false} PolyConvIsWindow(q: seq<Term>, b: seq<Term>, e: nat)
    requires AllNum(q)
    ensures PolyConv(q, b, e) == Window(q, b, e, 0, e + 1)
    decreases |q|
  {
    if q == [] {
      WindowNone(q, b, e, e + 1);
    } else {
      var n := |q| - 1;
      var t := q[n];
      var v := Re(t.coef) * Below(b, e, t.exp);
      assert PolyConv(q, b, e) == PolyConv(q[..n], b, e) + v;
      assert q[..n] + [t] == q;
      PolyConvIsWindow(q[..n], b, e);
      WindowSnoc(q[..n], t, b, e, e + 1);
      assert v == if t.exp < e + 1 then v else 0.0 by {
        if t.exp > e {
          assert Below(b, e, t.exp) == 0.0;
        }
      }
    }
  }

  /** A window over a polynomial with no nonzero coefficient sums to 0. */
  lemma {:induction false} WindowNone(q: seq<Term>, b: seq<Term>, e: nat, hi: nat)
    requires forall x: nat :: Re(Coeff(q, x)) == 0.0
    ensures Window(q, b, e, 0, hi) == 0.0
  {
    if hi > 0 {
      WindowNone(q, b, e, hi - 1);
    }
  }

  /** Windows depend on the left factor only through its coefficients. */
  lemma {:induction false} WindowCongruent(q1: seq<Term>, q2: seq<Term>, b: seq<Term>, e: nat, hi: nat)
    requires SameValues(q1, q2)
    ensures Window(q1, b, e, 0, hi) == Window(q2, b, e, 0, hi)
  {
    if hi > 0 {
      WindowCongruent(q1, q2, b, e, hi - 1);
    }
  }

  /** The product depends on an exact left factor only through its coefficients. */
  lemma FirstCongruent(q1: seq<Term>, q2: seq<Term>, b: seq<Term>, e: nat)
    requires AllNum(q1) && AllNum(q2) && SameValues(q1, q2)
    ensures PolyConv(q1, b, e) == PolyConv(q2, b, e)
  {
    PolyConvIsWindow(q1, b, e);
    PolyConvIsWindow(q2, b, e);
    WindowCongruent(q1, q2, b, e, e + 1);
  }

  /** Reading a window backwards swaps the factors. */
  lemma {:induction false} WindowReversed(q: seq<Term>, b: seq<Term>, e: nat, lo: nat, hi: nat)
    requires lo <= hi <= e + 1
    ensures Window(q, b, e, lo, hi) == Window(b, q, e, e + 1 - hi, e + 1 - lo)
    decreases hi - lo
  {
    if lo < hi {
      var x := hi - 1;
      WindowReversed(q, b, e, lo, x);
      assert Pair(q, b, e, x) == Pair(b, q, e, e - x);
      WindowFront(b, q, e, e - x, e + 1 - lo);
    }
  }

  /** Multiplication of exact polynomials commutes, coefficient by coefficient. */
  lemma PolyConvCommutes(q: seq<Term>, b: seq<Term>, e: nat)
    requires AllNum(q) && AllNum(b)
    ensures PolyConv(q, b, e) == PolyConv(b, q, e)
  {
    PolyConvIsWindow(q, b, e);
    PolyConvIsWindow(b, q, e);
    WindowReversed(q, b, e, 0, e + 1);
  }

  // ---------------------------------------------------------------------------
  // Differences, and cancelling a nonzero leading coefficient

  /** w - q as an unmerged term list: w followed by -1 times q. */
  function Minus(w: seq<Term>, q: seq<Term>): (r: seq<Term>)
    ensures |r| == |w| + |q|
  {
    w + Row(Term(Num(-1.0), 0), q)
  }

  lemma MinusNum(w: seq<Term>, q: seq<Term>)
    requires AllNum(w) && AllNum(q)
    ensures AllNum(Minus(w, q))
  {
    var m := Term(Num(-1.0), 0);
    RowNum(m, q);
    var r := Minus(w, q);
    forall i | 0 <= i < |r| ensures r[i].coef.Num? {
      if i >= |w| {
        assert r[i] == Row(m, q)[i - |w|];
      }
    }
  }

  /** The coefficients of w - q are the differences of the coefficients. */
  lemma MinusCoeff(w: seq<Term>, q: seq<Term>, x: nat)
    requires AllNum(w) && AllNum(q)
    ensures Re(Coeff(Minus(w, q), x)) == Re(Coeff(w, x)) - Re(Coeff(q, x))
  {
    var m := Term(Num(-1.0), 0);
    CoeffAppend(w, Row(m, q), x);
    CoeffRow(m, q, x);
    CoeffNum(w, x);
    CoeffNum(q, x);
    if x !in Exps(q) {
      CoeffAbsent(q, x);
    }
  }

  /** The product of w - q is the difference of the products. */
  lemma MinusConv(w: seq<Term>, q: seq<Term>, g: seq<Term>, e: nat)
    ensures PolyConv(Minus(w, q), g, e) == PolyConv(w, g, e) - PolyConv(q, g, e)
  {
    var m := Term(Num(-1.0), 0);
    PolyConvAppend(w, Row(m, q), g, e);
    RowConv(m, q, g, e);
  }

  /** The coefficient of x^(Degree p) is the leading coefficient. */
  lemma LeadAt(p: seq<Term>)
    requires p != []
    ensures Coeff(p, Degree(p)) == LeadCoef(p)
  {
    var z := ZeroRemoved(p);
    CoeffNormalAt(z, 0);
  }

  /** A nonzero coefficient anywhere makes the leading coefficient nonzero. */
  lemma LeadNonzero(p: seq<Term>, e: nat)
    requires p != [] && Coeff(p, e) != Zero
    ensures LeadCoef(p) != Zero
  {
    var z := ZeroRemoved(p);
    if |z| == 1 {
      CoeffSingle(z[0], e);
      assert z == [z[0]];
    }
  }

  /** A window in which only exponent k contributes sums to that contribution. */
  lemma {:induction false} WindowSingle(q: seq<Term>, b: seq<Term>, e: nat, k: nat, hi: nat)
    requires forall x: nat :: x != k ==> Pair(q, b, e, x) == 0.0
    ensures Window(q, b, e, 0, hi) == if k < hi then Pair(q, b, e, k) else 0.0
  {
    if hi > 0 {
      WindowSingle(q, b, e, k, hi - 1);
    }
  }

  /** If d vanishes above k, the product d * g at x^(k + Degree g) is the
      top coefficient of d times that of g. */
  lemma TopProduct(d: seq<Term>, g: seq<Term>, k: nat, e: nat)
    requires AllNum(d) && g != [] && e == k + Degree(g)
    requires forall x: nat :: x > k ==> Re(Coeff(d, x)) == 0.0
    ensures PolyConv(d, g, e) == Pair(d, g, e, k)
  {
    forall x: nat | x != k ensures Pair(d, g, e, x) == 0.0 {
      if x < k {
        CoeffAboveDegree(g, e - x);
      }
    }
    PolyConvIsWindow(d, g, e);
    WindowSingle(d, g, e, k, e + 1);
  }

  /** A contribution with a nonzero right factor vanishes only with the left one. */
  lemma PairZero(d: seq<Term>, g: seq<Term>, e: nat, k: nat)
    requires k <= e && Pair(d, g, e, k) == 0.0 && Re(Coeff(g, e - k)) != 0.0
    ensures Re(Coeff(d, k)) == 0.0
  {
    var c := Re(Coeff(d, k));
    var l := Re(Coeff(g, e - k));
    assert c * l == 0.0;
    assert c == (c * l) / l;
  }

  /** Multiplying by g, whose leading coefficient is nonzero, keeps the top
      coefficient of d: if d vanishes above k and d * g vanishes from
      Degree(g) up, then d vanishes at k. */
  lemma TopVanishes(d: seq<Term>, g: seq<Term>, k: nat)
    requires AllNum(d) && AllNum(g) && g != [] && LeadCoef(g) != Zero
    requires forall e: nat :: e >= Degree(g) ==> PolyConv(d, g, e) == 0.0
    requires forall x: nat :: x > k ==> Re(Coeff(d, x)) == 0.0
    ensures Re(Coeff(d, k)) == 0.0
  {
    var dg := Degree(g);
    var e := k + dg;
    assert e - k == dg;
    LeadAt(g);
    CoeffNum(g, dg);
    TopProduct(d, g, k, e);
    PairZero(d, g, e, k);
  }

  lemma {:induction false} VanishesFrom(d: seq<Term>, g: seq<Term>, k: nat)
    requires AllNum(d) && AllNum(g) && g != [] && LeadCoef(g) != Zero
    requires forall e: nat :: e >= Degree(g) ==> PolyConv(d, g, e) == 0.0
    ensures forall x: nat :: x >= k ==> Re(Coeff(d, x)) == 0.0
    decreases MaxExp(d) + 1 - k
  {
    if k > MaxExp(d) {
      forall x: nat | x >= k ensures Re(Coeff(d, x)) == 0.0 {
        CoeffAbsent(d, x);
      }
    } else {
      VanishesFrom(d, g, k + 1);
      TopVanishes(d, g, k);
    }
  }

  /** No zero divisors: if d * g vanishes from Degree(g) up, where g has a
      nonzero leading coefficient, then d is zero. */
  lemma NoZeroDivisors(d: seq<Term>, g: seq<Term>)
    requires AllNum(d) && AllNum(g) && g != [] && LeadCoef(g) != Zero
    requires forall e: nat :: e >= Degree(g) ==> PolyConv(d, g, e) == 0.0
    ensures forall x: nat :: Re(Coeff(d, x)) == 0.0
  {
    VanishesFrom(d, g, 0);
  }

  // ---------------------------------------------------------------------------
  // Division at every exponent

  /** A product whose left factor stays below e - Degree(b) vanishes at x^e. */
  lemma {:induction false} ConvVanishes(q: seq<Term>, b: seq<Term>, e: nat)
    requires b != []
    requires forall i :: 0 <= i < |q| ==> q[i].exp + Degree(b) < e
    ensures PolyConv(q, b, e) == 0.0
    decreases |q|
  {
    if q != [] {
      var n := |q| - 1;
      assert forall i :: 0 <= i < n ==> q[..n][i] == q[i];
      ConvVanishes(q[..n], b, e);
      CoeffAboveDegree(b, e - q[n].exp);
    }
  }

  /** dividend = divisor * quotient + remainder at one exponent, including
      those above the dividend's degree, whichever degree is larger. */
  lemma DivisionAt(x: seq<Term>, y: seq<Term>, e: nat)
    requires x != [] && y != [] && AllNum(x) && AllNum(y) && LeadCoef(y) != Zero
    ensures Re(Coeff(x, e)) == Re(Coeff(ModSpec(x, y), e)) + PolyConv(QuotientSpec(x, y), y, e)
    ensures e >= Degree(y) ==> Coeff(ModSpec(x, y), e) == Zero
  {
    if Degree(x) < Degree(y) {
      DivisionAtShort(x, y, e);
    } else {
      DivisionAtLong(x, y, e);
    }
  }

  /** A dividend of lower degree is its own remainder, with quotient {0*x^0}. */
  lemma DivisionAtShort(x: seq<Term>, y: seq<Term>, e: nat)
    requires x != [] && y != [] && AllNum(x) && AllNum(y) && LeadCoef(y) != Zero
    requires Degree(x) < Degree(y)
    ensures Re(Coeff(x, e)) == Re(Coeff(ModSpec(x, y), e)) + PolyConv(QuotientSpec(x, y), y, e)
    ensures e >= Degree(y) ==> Coeff(ModSpec(x, y), e) == Zero
  {
    var q := QuotientSpec(x, y);
    assert q[..0] == [];
    CoeffNum(x, e);
    if e >= Degree(y) {
      CoeffAboveDegree(x, e);
    }
  }

  lemma DivisionAtLong(x: seq<Term>, y: seq<Term>, e: nat)
    requires x != [] && y != [] && AllNum(x) && AllNum(y) && LeadCoef(y) != Zero
    requires Degree(x) >= Degree(y)
    ensures Re(Coeff(x, e)) == Re(Coeff(ModSpec(x, y), e)) + PolyConv(QuotientSpec(x, y), y, e)
    ensures e >= Degree(y) ==> Coeff(ModSpec(x, y), e) == Zero
  {
    DivisionIdentity(x, y);
    RemainderBelowDivisor(x, y);
    if e > Degree(x) {
      CoeffAboveDegree(x, e);
      ConvVanishes(QuotientSpec(x, y), y, e);
    }
  }

  /** Long division over exact numbers at every exponent: the quotient and
      remainder are exact, dividend = divisor * quotient + remainder, and the
      remainder vanishes from the divisor's degree up. */
  lemma DivisionEverywhere(x: seq<Term>, y: seq<Term>)
    requires x != [] && y != [] && AllNum(x) && AllNum(y) && LeadCoef(y) != Zero
    ensures AllNum(QuotientSpec(x, y)) && AllNum(ModSpec(x, y))
    ensures forall e: nat :: Re(Coeff(x, e)) == Re(Coeff(ModSpec(x, y), e)) + PolyConv(QuotientSpec(x, y), y, e)
    ensures forall e: nat :: e >= Degree(y) ==> Coeff(ModSpec(x, y), e) == Zero
  {
    if Degree(x) < Degree(y) {
      CombinedNum(x);
    } else {
      DivisionIdentity(x, y);
      RemainderBelowDivisor(x, y);
    }
    forall e: nat
      ensures Re(Coeff(x, e)) == Re(Coeff(ModSpec(x, y), e)) + PolyConv(QuotientSpec(x, y), y, e)
      ensures e >= Degree(y) ==> Coeff(ModSpec(x, y), e) == Zero
    {
      DivisionAt(x, y, e);
    }
  }

  /** When some w makes p = w * g, the long division of p by g is exact: the
      quotient has w's coefficients and the remainder is zero. */
  lemma ExactQuotient(p: seq<Term>, g: seq<Term>, w: seq<Term>)
    requires p != [] && g != [] && AllNum(p) && AllNum(g) && AllNum(w) && LeadCoef(g) != Zero
    requires Multiple(p, w, g)
    ensures SameValues(QuotientSpec(p, g), w)
    ensures forall e: nat :: Re(Coeff(ModSpec(p, g), e)) == 0.0
  {
    var q := QuotientSpec(p, g);
    var r := ModSpec(p, g);
    DivisionEverywhere(p, g);
    var d := Minus(w, q);
    MinusNum(w, q);
    forall e: nat ensures PolyConv(d, g, e) == Re(Coeff(r, e)) {
      MinusConv(w, q, g, e);
    }
    NoZeroDivisors(d, g);
    forall x: nat ensures Re(Coeff(q, x)) == Re(Coeff(w, x)) {
      MinusCoeff(w, q, x);
    }
    forall e: nat ensures Re(Coeff(r, e)) == 0.0 {
      FirstCongruent(d, [], g, e);
    }
  }

  // ---------------------------------------------------------------------------
  // Divisibility

  /** Divisibility depends on the dividend only through its coefficients. */
  lemma DividesSameValues(g: seq<Term>, p: seq<Term>, q: seq<Term>)
    requires Divides(g, p) && SameValues(p, q) && AllNum(q)
    ensures Divides(g, q)
  {
    var h :| AllNum(h) && Multiple(p, h, g);
    assert Multiple(q, h, g);
  }

  /** Every exact polynomial divides itself. */
  lemma DividesSelf(g: seq<Term>)
    requires AllNum(g)
    ensures Divides(g, g)
  {
    var one := [Term(One, 0)];
    assert one[..0] == [];
    assert Multiple(g, one, g);
  }

  /** Every exact polynomial divides a polynomial with only zero coefficients. */
  lemma DividesZero(g: seq<Term>, z: seq<Term>)
    requires AllNum(g) && AllNum(z) && forall e: nat :: Coeff(z, e) == Zero
    ensures Divides(g, z)
  {
    assert Multiple(z, [], g);
  }

  /** The constant 1 divides every exact polynomial. */
  lemma OneDivides(p: seq<Term>)
    requires AllNum(p)
    ensures Divides([Term(One, 0)], p)
  {
    var one := [Term(One, 0)];
    assert one[..0] == [];
    forall e: nat ensures Re(Coeff(p, e)) == PolyConv(p, one, e) {
      PolyConvCommutes(p, one, e);
    }
  }

  /** If g divides the divisor y and the remainder x % y, it divides the
      dividend x = y * (x / y) + x % y. */
  lemma DividesDividend(g: seq<Term>, x: seq<Term>, y: seq<Term>)
    requires x != [] && y != [] && AllNum(x) && AllNum(y) && LeadCoef(y) != Zero
    requires Divides(g, y) && Divides(g, ModSpec(x, y))
    ensures Divides(g, x)
  {
    var hy :| AllNum(hy) && Multiple(y, hy, g);
    var hr :| AllNum(hr) && Multiple(ModSpec(x, y), hr, g);
    DividendWitness(g, x, y, hy, hr);
    Witness(g, x, hr + Cross(QuotientSpec(x, y), hy));
  }

  /** A cofactor over exact numbers witnesses divisibility. */
  lemma Witness(g: seq<Term>, p: seq<Term>, h: seq<Term>)
    requires AllNum(g) && AllNum(p) && AllNum(h) && Multiple(p, h, g)
    ensures Divides(g, p)
  {
  }

  /** The witness for the dividend: x = (hr + (x / y) * hy) * g. */
  lemma DividendWitness(g: seq<Term>, x: seq<Term>, y: seq<Term>, hy: seq<Term>, hr: seq<Term>)
    requires x != [] && y != [] && AllNum(x) && AllNum(y) && LeadCoef(y) != Zero
    requires AllNum(hy) && AllNum(hr) && Multiple(y, hy, g) && Multiple(ModSpec(x, y), hr, g)
    ensures AllNum(hr + Cross(QuotientSpec(x, y), hy))
    ensures Multiple(x, hr + Cross(QuotientSpec(x, y), hy), g)
  {
    var q := QuotientSpec(x, y);
    DivisionEverywhere(x, y);
    var c := Cross(q, hy);
    CrossNum(q, hy);
    AppendNum(hr, c);
    forall e: nat ensures Re(Coeff(x, e)) == PolyConv(hr + c, g, e) {
      PolyConvAppend(hr, c, g, e);
      CrossConv(q, y, hy, g, e);
    }
  }

  lemma AppendNum(a: seq<Term>, b: seq<Term>)
    requires AllNum(a) && AllNum(b)
    ensures AllNum(a + b)
  {
    forall i | 0 <= i < |a + b| ensures (a + b)[i].coef.Num? {
      if i >= |a| {
        assert (a + b)[i] == b[i - |a|];
      }
    }
  }

  /** If g divides x and y, it divides the remainder x % y = x - y * (x / y). */
  lemma DividesRemainder(g: seq<Term>, x: seq<Term>, y: seq<Term>)
    requires x != [] && y != [] && AllNum(x) && AllNum(y) && LeadCoef(y) != Zero
    requires Divides(g, x) && Divides(g, y)
    ensures Divides(g, ModSpec(x, y))
  {
    var hx :| AllNum(hx) && Multiple(x, hx, g);
    var hy :| AllNum(hy) && Multiple(y, hy, g);
    var q := QuotientSpec(x, y);
    DivisionEverywhere(x, y);
    var c := Cross(q, hy);
    CrossNum(q, hy);
    var h := Minus(hx, c);
    MinusNum(hx, c);
    forall e: nat ensures Re(Coeff(ModSpec(x, y), e)) == PolyConv(h, g, e) {
      MinusConv(hx, c, g, e);
      CrossConv(q, y, hy, g, e);
    }
  }

  /** `p * t` for a constant term t: the coefficients of p scaled by coef t. */
  lemma ScaledValues(g: seq<Term>, k: Coef)
    requires AllNum(g) && k.Num?
    ensures AllNum(TimesTermSpec(g, Term(k, 0)))
    ensures forall x: nat :: Re(Coeff(TimesTermSpec(g, Term(k, 0)), x)) == k.r * Re(Coeff(g, x))
  {
    forall x: nat ensures Coeff(TimesTermSpec(g, Term(k, 0)), x).Num? &&
      Re(Coeff(TimesTermSpec(g, Term(k, 0)), x)) == k.r * Re(Coeff(g, x))
    {
      ScaledAt(g, k, x);
    }
    NumFromCoeff(TimesTermSpec(g, Term(k, 0)));
  }

  lemma ScaledAt(g: seq<Term>, k: Coef, x: nat)
    requires AllNum(g) && k.Num?
    ensures Coeff(TimesTermSpec(g, Term(k, 0)), x).Num?
    ensures Re(Coeff(TimesTermSpec(g, Term(k, 0)), x)) == k.r * Re(Coeff(g, x))
  {
    ConstantAt(g, k, x);
    CoeffNum(g, x);
    MulSwapped(Coeff(g, x), k);
  }

  lemma MulSwapped(c: Coef, k: Coef)
    requires c.Num? && k.Num?
    ensures Mul(c, k).Num? && Re(Mul(c, k)) == k.r * c.r
  {
    assert c.r * k.r == k.r * c.r;
  }

  lemma ConstantAt(g: seq<Term>, k: Coef, x: nat)
    requires k.Num?
    ensures Coeff(TimesTermSpec(g, Term(k, 0)), x) == Mul(Coeff(g, x), k)
  {
    var t := Term(k, 0);
    assert x - t.exp == x;
  }

  /** Scaling a divisor by a nonzero constant keeps it a divisor. */
  lemma ScaledDivides(g: seq<Term>, k: Coef, p: seq<Term>)
    requires Divides(g, p) && k.Num? && k != Zero
    ensures Divides(TimesTermSpec(g, Term(k, 0)), p)
  {
    ScaledValues(g, k);
    var h :| AllNum(h) && Multiple(p, h, g);
    Reciprocal(k);
    RowNum(Term(Div(One, k), 0), h);
    InverseWitness(g, TimesTermSpec(g, Term(k, 0)), p, h, Term(Div(One, k), 0), k.r);
  }

  /** The reciprocal of a nonzero exact coefficient, in reals. */
  lemma Reciprocal(k: Coef)
    requires k.Num? && k != Zero
    ensures Term(Div(One, k), 0).coef.Num? && k.r * Re(Term(Div(One, k), 0).coef) == 1.0
  {
    MulReciprocal(k);
  }

  /** If p = h*g and r = k*g, then p = (h/k)*r. */
  lemma InverseWitness(g: seq<Term>, r: seq<Term>, p: seq<Term>, h: seq<Term>, t: Term, k: real)
    requires AllNum(r) && AllNum(p) && AllNum(Row(t, h)) && Multiple(p, h, g)
    requires t.exp == 0 && k * Re(t.coef) == 1.0
    requires forall x: nat :: Re(Coeff(r, x)) == k * Re(Coeff(g, x))
    ensures Divides(r, p)
  {
    forall e: nat ensures Re(Coeff(p, e)) == PolyConv(Row(t, h), r, e) {
      RowInverse(t, h, r, g, k, e);
    }
    Witness(r, p, Row(t, h));
  }

  /** Scaling the right factor by k and the left by 1/k changes nothing. */
  lemma {:induction false} RowInverse(t: Term, h: seq<Term>, r: seq<Term>, g: seq<Term>, k: real, e: nat)
    requires t.exp == 0 && k * Re(t.coef) == 1.0
    requires forall x: nat :: Re(Coeff(r, x)) == k * Re(Coeff(g, x))
    ensures PolyConv(Row(t, h), r, e) == PolyConv(h, g, e)
    decreases |h|
  {
    if h != [] {
      RowInverse(t, h[..|h| - 1], r, g, k, e);
      RowInverseLast(t, h, r, g, k, e);
    }
  }

  /** The last term of h adds the same amount to both sides of `RowInverse`. */
  lemma RowInverseLast(t: Term, h: seq<Term>, r: seq<Term>, g: seq<Term>, k: real, e: nat)
    requires h != [] && t.exp == 0 && k * Re(t.coef) == 1.0
    requires forall x: nat :: Re(Coeff(r, x)) == k * Re(Coeff(g, x))
    ensures PolyConv(Row(t, h), r, e) - PolyConv(Row(t, h[..|h| - 1]), r, e) ==
      PolyConv(h, g, e) - PolyConv(h[..|h| - 1], g, e)
  {
    var n := |h| - 1;
    var s := Row(t, h);
    assert s[..n] == Row(t, h[..n]);
    assert s[n] == Times(t, h[n]);
    InverseTerm(t, h[n], r, g, k, e);
  }

  /** One term of the row: (c * u) times k * g contributes what u contributes
      times g, when c * k = 1. */
  lemma InverseTerm(t: Term, u: Term, r: seq<Term>, g: seq<Term>, k: real, e: nat)
    requires t.exp == 0 && k * Re(t.coef) == 1.0
    requires forall x: nat :: Re(Coeff(r, x)) == k * Re(Coeff(g, x))
    ensures Re(Times(t, u).coef) * Below(r, e, Times(t, u).exp) == Re(u.coef) * Below(g, e, u.exp)
  {
    var c := Re(t.coef);
    var a := Re(u.coef);
    var b := Below(g, e, u.exp);
    assert Re(Times(t, u).coef) == c * a;
    assert Below(r, e, Times(t, u).exp) == k * b;
    Cancel(c, a, k, b);
  }

  /** A row of a constant term scales the product by its coefficient. */
  lemma RowConstant(t: Term, h: seq<Term>, r: seq<Term>, e: nat)
    requires t.exp == 0
    ensures PolyConv(Row(t, h), r, e) == Re(t.coef) * PolyConv(h, r, e)
  {
    RowConv(t, h, r, e);
    assert e - t.exp == e;
    ScaleEqual(Re(t.coef), PolyConv(h, r, e - t.exp), PolyConv(h, r, e));
  }

  /** Equal values scaled by the same factor stay equal. */
  lemma ScaleEqual(c: real, x: real, y: real)
    requires x == y
    ensures c * x == c * y
  {
  }

  lemma Cancel(c: real, a: real, k: real, b: real)
    requires k * c == 1.0
    ensures (c * a) * (k * b) == a * b
  {
    assert (c * a) * (k * b) == (k * c) * (a * b);
  }

  /** Scaling a multiple by a constant keeps it a multiple. */
  lemma DividesScaled(g: seq<Term>, k: Coef, p: seq<Term>)
    requires Divides(g, p) && k.Num?
    ensures Divides(g, TimesTermSpec(p, Term(k, 0)))
  {
    var r := TimesTermSpec(p, Term(k, 0));
    ScaledNum(p, k);
    var h :| AllNum(h) && Multiple(p, h, g);
    var t := Term(k, 0);
    RowNum(t, h);
    ScaledMultiple(p, h, g, k);
    Witness(g, r, Row(t, h));
  }

  /** If p = h * g then p * k = (h * k) * g for a constant k. */
  lemma ScaledMultiple(p: seq<Term>, h: seq<Term>, g: seq<Term>, k: Coef)
    requires AllNum(p) && k.Num? && Multiple(p, h, g)
    ensures Multiple(TimesTermSpec(p, Term(k, 0)), Row(Term(k, 0), h), g)
  {
    ScaledValues(p, k);
    forall x: nat ensures PolyConv(Row(Term(k, 0), h), g, x) == k.r * PolyConv(h, g, x) {
      RowScaled(k, h, g, x);
    }
    MultipleScaled(p, TimesTermSpec(p, Term(k, 0)), h, Row(Term(k, 0), h), g, k.r);
  }

  /** Scaling both p and its cofactor h by c keeps p a multiple of g. */
  lemma MultipleScaled(p: seq<Term>, r: seq<Term>, h: seq<Term>, s: seq<Term>, g: seq<Term>, c: real)
    requires forall x: nat :: Re(Coeff(r, x)) == c * Re(Coeff(p, x))
    requires forall x: nat :: PolyConv(s, g, x) == c * PolyConv(h, g, x)
    requires Multiple(p, h, g)
    ensures Multiple(r, s, g)
  {
    forall e: nat ensures Re(Coeff(r, e)) == PolyConv(s, g, e) {
      ScaledBoth(Re(Coeff(r, e)), PolyConv(s, g, e), c, Re(Coeff(p, e)), PolyConv(h, g, e));
    }
  }

  lemma ScaledBoth(u: real, v: real, c: real, x: real, y: real)
    requires u == c * x && v == c * y && x == y
    ensures u == v
  {
  }

  /** `p * t` for a constant exact t is exact when p is. */
  lemma ScaledNum(p: seq<Term>, k: Coef)
    requires AllNum(p) && k.Num?
    ensures AllNum(TimesTermSpec(p, Term(k, 0)))
  {
    var r := TimesTermSpec(p, Term(k, 0));
    forall x: nat ensures Coeff(r, x).Num? {
      ScaledAt(p, k, x);
    }
    NumFromCoeff(r);
  }

  /** The row of the constant term k scales the product by k. */
  lemma RowScaled(k: Coef, h: seq<Term>, g: seq<Term>, e: nat)
    requires k.Num?
    ensures PolyConv(Row(Term(k, 0), h), g, e) == k.r * PolyConv(h, g, e)
  {
    RowConstant(Term(k, 0), h, g, e);
  }

  // ---------------------------------------------------------------------------
  // What `&` and `|` compute

  /** Along the loop of `&`: once c_other ends as the zero constant, the last
      copy divides every earlier pair, and its leading coefficient is nonzero
      when the first one's is. */
  lemma {:induction false} LoopDivides(x: seq<Term>, y: seq<Term>)
    requires Inv(x, y) && Normal(y) && LeadCoef(x) != Zero
    ensures LeadCoef(Loop(x, y).0) != Zero
    ensures Loop(x, y).1[0].coef == Zero ==> Divides(Loop(x, y).0, x) && Divides(Loop(x, y).0, y)
    decreases y[0].exp
  {
    if y[0].exp == 0 {
      if y[0].coef == Zero {
        ConstantIsSingle(y);
        forall e: nat ensures Coeff(y, e) == Zero {
          CoeffSingle(y[0], e);
        }
        DividesZero(x, y);
        DividesSelf(x);
      }
    } else {
      EuclidStep(x, y);
      var x1 := ZeroRemoved(y);
      var y1 := ZeroRemoved(ModSpec(x, y));
      ZeroRemovedIdempotent(y);
      LoopDivides(x1, y1);
      var (g, z) := Loop(x1, y1);
      if z[0].coef == Zero {
        DivisionEverywhere(x, y);
        DividesSameValues(g, x1, y);
        DividesSameValues(g, y1, ModSpec(x, y));
        DividesDividend(g, x, y);
      }
    }
  }

  /** A normal sequence whose first exponent is 0 is a single term. */
  lemma ConstantIsSingle(y: seq<Term>)
    requires Normal(y) && y != []
    ensures y[0].exp == 0 ==> y == [y[0]]
  {
    if |y| > 1 {
      assert y[0].exp > y[1].exp;
    }
  }

  /** The result of `&` divides both operands and has a nonzero leading
      coefficient, whenever the second operand's first coefficient, by which
      the result is scaled, is nonzero. */
  lemma GcdDivides(a: seq<Term>, b: seq<Term>)
    requires GcdReady(a, b) && b[0].coef != Zero
    ensures Divides(GcdSpec(a, b), a) && Divides(GcdSpec(a, b), b)
    ensures LeadCoef(GcdSpec(a, b)) != Zero
  {
    if b[0].exp == 0 {
      GcdUnit(a, b);
      OneDivides(a);
      OneDivides(b);
      OneLead();
    } else {
      GcdAfterStep(a, b);
    }
  }

  /** The constant 1 has leading coefficient 1. */
  lemma OneLead()
    ensures LeadCoef([Term(One, 0)]) != Zero
  {
    CoeffSingle(Term(One, 0), 0);
    LeadNonzero([Term(One, 0)], 0);
  }

  /** `&` when the loop runs at least once. */
  lemma GcdAfterStep(a: seq<Term>, b: seq<Term>)
    requires GcdReady(a, b) && b[0].coef != Zero && b[0].exp != 0
    ensures Divides(GcdSpec(a, b), a) && Divides(GcdSpec(a, b), b)
    ensures LeadCoef(GcdSpec(a, b)) != Zero
  {
    var c := Combined(a);
    GcdStart(a, b);
    EuclidStep(c, b);
    var x1 := ZeroRemoved(b);
    var y1 := ZeroRemoved(ModSpec(c, b));
    ZeroRemovedIdempotent(b);
    LoopDivides(x1, y1);
    assert Loop(c, b) == Loop(x1, y1);
    var (g, z) := Loop(x1, y1);
    if z[0].coef != Zero {
      OneDivides(a);
      OneDivides(b);
      OneLead();
    } else {
      var k := Div(One, b[0].coef);
      ReciprocalNonzero(b[0].coef);
      LastCopyDivides(a, b, g);
      ScaledDivides(g, k, a);
      ScaledDivides(g, k, b);
      ScaledLeadNonzero(g, k);
    }
  }

  /** A divisor of both zero_remove'd loop operands after the first step
      divides both operands of `&`. */
  lemma LastCopyDivides(a: seq<Term>, b: seq<Term>, g: seq<Term>)
    requires GcdReady(a, b) && b[0].exp != 0
    requires Divides(g, ZeroRemoved(b)) && Divides(g, ZeroRemoved(ModSpec(Combined(a), b)))
    ensures Divides(g, a) && Divides(g, b)
  {
    var c := Combined(a);
    GcdStart(a, b);
    DivisionEverywhere(c, b);
    DividesSameValues(g, ZeroRemoved(b), b);
    DividesSameValues(g, ZeroRemoved(ModSpec(c, b)), ModSpec(c, b));
    DividesDividend(g, c, b);
    DividesSameValues(g, c, a);
  }

  /** Scaling by a nonzero constant keeps the leading coefficient nonzero. */
  lemma ScaledLeadNonzero(g: seq<Term>, k: Coef)
    requires g != [] && AllNum(g) && LeadCoef(g) != Zero && k.Num? && k != Zero
    ensures LeadCoef(TimesTermSpec(g, Term(k, 0))) != Zero
  {
    var d := Degree(g);
    LeadAt(g);
    CoeffNum(g, d);
    ConstantAt(g, k, d);
    var l := Coeff(g, d);
    assert l.r * k.r != 0.0;
    var r := TimesTermSpec(g, Term(k, 0));
    LeadNonzero(r, d);
  }

  /** The coefficients of the cross product of q and h are those of q * h. */
  lemma CrossValues(q: seq<Term>, h: seq<Term>, x: nat)
    requires AllNum(q) && AllNum(h)
    ensures Re(Coeff(Cross(q, h), x)) == PolyConv(q, h, x)
  {
    CoeffCross(q, h, x);
    ConvIsPolyConv(q, h, x);
  }

  /** (u * v) * g and (v * u) * g agree. */
  lemma SwapFactors(u: seq<Term>, v: seq<Term>, g: seq<Term>, e: nat)
    requires AllNum(u) && AllNum(v)
    ensures PolyConv(Cross(u, v), g, e) == PolyConv(Cross(v, u), g, e)
  {
    CrossNum(u, v);
    CrossNum(v, u);
    forall x: nat ensures Re(Coeff(Cross(u, v), x)) == Re(Coeff(Cross(v, u), x)) {
      CrossValues(u, v, x);
      CrossValues(v, u, x);
      PolyConvCommutes(u, v, x);
    }
    FirstCongruent(Cross(u, v), Cross(v, u), g, e);
  }

  /** `&` combines its first operand before the loop, so combining it
      beforehand changes nothing. */
  lemma GcdCombined(a: seq<Term>, b: seq<Term>)
    requires GcdReady(a, b)
    ensures GcdReady(Combined(a), b)
    ensures GcdSpec(Combined(a), b) == GcdSpec(a, b)
  {
    GcdReadyCombined(a, b);
    CombinedNormal(Combined(a));
  }

  /** The product b * a of `|` is a multiple of the gcd g: with b = hb * g
      it equals (a * hb) * g. */
  lemma ProductOverGcd(c: seq<Term>, b: seq<Term>, g: seq<Term>, hb: seq<Term>)
    requires AllNum(c) && AllNum(b) && AllNum(hb) && Multiple(b, hb, g)
    ensures AllNum(ProdSpec(b, c)) && AllNum(Cross(c, hb))
    ensures Multiple(ProdSpec(b, c), Cross(c, hb), g)
  {
    var p := ProdSpec(b, c);
    ProdIsMultiple(b, c);
    CrossNum(c, hb);
    forall e: nat ensures Re(Coeff(p, e)) == PolyConv(Cross(c, hb), g, e) {
      PolyConvCommutes(b, c, e);
      CrossConv(c, b, hb, g, e);
    }
  }

  /** The result of `|` is a multiple of both operands, b * a is the lcm
      times the gcd, and the division inside `|` leaves no remainder, whenever
      the second operand's first coefficient is nonzero. */
  lemma LcmDivides(a: seq<Term>, b: seq<Term>)
    requires GcdReady(a, b) && b[0].coef != Zero
    ensures Divides(a, LcmSpec(a, b)) && Divides(b, LcmSpec(a, b))
    ensures Multiple(ProdSpec(b, Combined(a)), LcmSpec(a, b), GcdSpec(a, b))
    ensures forall e: nat :: Re(Coeff(ModSpec(ProdSpec(b, Combined(a)), GcdSpec(a, b)), e)) == 0.0
  {
    var c := Combined(a);
    GcdCombined(a, b);
    var g := GcdSpec(a, b);
    GcdDivides(c, b);
    CombinedNum(a);
    var ha :| AllNum(ha) && Multiple(c, ha, g);
    var hb :| AllNum(hb) && Multiple(b, hb, g);
    var p := ProdSpec(b, c);
    var w := Cross(c, hb);
    ProductOverGcd(c, b, g, hb);
    ExpsEmpty(p);
    ExpsEmpty(g);
    ExactQuotient(p, g, w);
    DivisionEverywhere(p, g);
    var l := LcmSpec(a, b);
    assert l == QuotientSpec(p, g);
    forall x: nat ensures Re(Coeff(l, x)) == PolyConv(hb, a, x) {
      CrossValues(c, hb, x);
      PolyConvCommutes(c, hb, x);
      SecondCongruent(hb, c, a, x);
    }
    forall x: nat ensures Re(Coeff(l, x)) == PolyConv(ha, b, x) {
      CrossValues(c, hb, x);
      PolyConvCommutes(c, hb, x);
      CrossConv(hb, c, ha, g, x);
      CrossConv(ha, b, hb, g, x);
      SwapFactors(hb, ha, g, x);
    }
    forall e: nat ensures Re(Coeff(p, e)) == PolyConv(l, g, e) {
      FirstCongruent(w, l, g, e);
    }
  }

  /** Along the loop of `&`, a common divisor of the pair stays a common
      divisor, and a normal c_other stays normal. */
  lemma {:induction false} LoopKeepsDivisor(x: seq<Term>, y: seq<Term>, d: seq<Term>)
    requires Inv(x, y) && Normal(y) && Divides(d, x) && Divides(d, y)
    ensures Normal(Loop(x, y).1)
    ensures Divides(d, Loop(x, y).0) && Divides(d, Loop(x, y).1)
    decreases y[0].exp
  {
    if y[0].exp != 0 {
      EuclidStep(x, y);
      var x1 := ZeroRemoved(y);
      var y1 := ZeroRemoved(ModSpec(x, y));
      DividesRemainder(d, x, y);
      DividesSameValues(d, y, x1);
      DividesSameValues(d, ModSpec(x, y), y1);
      LoopKeepsDivisor(x1, y1, d);
    }
  }

  /** A divisor of positive degree, times anything, has no constant term
      unless the product vanishes from Degree(d) up. */
  lemma ConstantTermOfMultiple(d: seq<Term>, y: seq<Term>, h: seq<Term>)
    requires d != [] && AllNum(d) && AllNum(h) && LeadCoef(d) != Zero && Multiple(y, h, d)
    requires forall e: nat :: e >= 1 ==> Coeff(y, e) == Zero
    ensures Degree(d) >= 1 ==> Re(Coeff(y, 0)) == 0.0
  {
    if Degree(d) >= 1 {
      NoZeroDivisors(h, d);
      FirstCongruent(h, [], d, 0);
    }
  }

  /** A divisor, with a nonzero leading coefficient, of a nonzero constant
      divides the constant 1. */
  lemma UnitDivisor(d: seq<Term>, y: seq<Term>)
    requires d != [] && LeadCoef(d) != Zero && Divides(d, y)
    requires forall e: nat :: e >= 1 ==> Coeff(y, e) == Zero
    requires Coeff(y, 0) != Zero
    ensures Divides(d, [Term(One, 0)])
  {
    var h :| AllNum(h) && Multiple(y, h, d);
    ConstantTermOfMultiple(d, y, h);
    CoeffNum(y, 0);
    ConstantDividesOne(d);
  }

  /** A nonzero constant divides 1. */
  lemma ConstantDividesOne(d: seq<Term>)
    requires d != [] && AllNum(d) && LeadCoef(d) != Zero && Degree(d) == 0
    ensures Divides(d, [Term(One, 0)])
  {
    LeadAt(d);
    CoeffNum(d, 0);
    var l := Coeff(d, 0).r;
    var inv := [Term(Num(1.0 / l), 0)];
    assert inv[..0] == [];
    forall e: nat ensures Re(Coeff([Term(One, 0)], e)) == PolyConv(inv, d, e) {
      CoeffSingle(Term(One, 0), e);
      if e >= 1 {
        CoeffAboveDegree(d, e);
      } else {
        assert (1.0 / l) * l == 1.0;
      }
    }
    assert AllNum(inv) && Multiple([Term(One, 0)], inv, d);
    assert AllNum([Term(One, 0)]);
  }

  /** Every common divisor of the operands of `&`, with a nonzero leading
      coefficient, divides the result, whenever the second operand is in
      normal form and its first coefficient is nonzero. */
  lemma GcdGreatest(a: seq<Term>, b: seq<Term>, d: seq<Term>)
    requires GcdReady(a, b) && Normal(b) && b[0].coef != Zero
    requires d != [] && LeadCoef(d) != Zero && Divides(d, a) && Divides(d, b)
    ensures Divides(d, GcdSpec(a, b))
  {
    var c := Combined(a);
    CombinedNum(a);
    DividesSameValues(d, a, c);
    GcdStart(a, b);
    LoopKeepsDivisor(c, b, d);
    var (x, y) := Loop(c, b);
    if y[0].coef != Zero {
      ConstantIsSingle(y);
      forall e: nat | e >= 1 ensures Coeff(y, e) == Zero {
        CoeffSingle(y[0], e);
      }
      CoeffSingle(y[0], 0);
      UnitDivisor(d, y);
    } else {
      ReciprocalNonzero(b[0].coef);
      DividesScaled(d, Div(One, b[0].coef), x);
    }
  }
}

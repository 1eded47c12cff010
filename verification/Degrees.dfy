/** The degree of an expression is the degree of its values: along every line of assignments the value is a polynomial
    of at most that degree, and the degree is the number of columns in the longest product of the distributed form. */
module Degrees {
  import opened Fields
  import opened Sums
  import opened Polynomials
  import opened Expressions

  /** Multipliers and offsets of scaled sums are scalars. */
  predicate WellFormed<T>(e: Expr<T>) {
    match e
    case Sum(l, r) => WellFormed(l) && WellFormed(r)
    case Product(l, r) => WellFormed(l) && WellFormed(r)
    case ScaledSum(x, a, b) =>
      WellFormed(x) && WellFormed(a) && WellFormed(b) && Degree(a) == 0 && Degree(b) == 0
    case _ => true
  }

  // ---------- the operators keep well-formedness ----------

  lemma {:induction false} NegWellFormed<T>(K: Field<T>, e: Expr<T>)
    requires WellFormed(e)
    ensures WellFormed(NegExpr(K, e)) && Degree(NegExpr(K, e)) == Degree(e)
  {
    match e
    case Sum(l, r) =>
      NegWellFormed(K, l);
      NegWellFormed(K, r);
    case Product(l, r) =>
      NegWellFormed(K, l);
    case ScaledSum(x, a, b) =>
      NegWellFormed(K, a);
      NegWellFormed(K, b);
    case _ =>
  }

  lemma {:induction false} AddWellFormed<T>(K: Field<T>, e: Expr<T>, f: Expr<T>)
    requires WellFormed(e) && WellFormed(f)
    ensures WellFormed(AddExpr(K, e, f)) && Degree(AddExpr(K, e, f)) == Max(Degree(e), Degree(f))
    decreases Size(e) + Size(f)
  {
    if e.Constant? && f.ScaledSum? {
      AddWellFormed(K, f.b, e);
    } else if e.ScaledSum? && f.Constant? {
      AddWellFormed(K, e.b, f);
    }
  }

  lemma {:induction false} MulWellFormed<T>(K: Field<T>, e: Expr<T>, f: Expr<T>)
    requires WellFormed(e) && WellFormed(f)
    ensures WellFormed(MulExpr(K, e, f))
    decreases Size(e) + Size(f)
  {
    if e.ScaledSum? && IsScalar(f) {
      MulWellFormed(K, e.a, f);
      MulWellFormed(K, e.b, f);
      MulDegree(K, e.a, f);
      MulDegree(K, e.b, f);
    } else if IsScalar(e) && f.ScaledSum? {
      MulWellFormed(K, f.a, e);
      MulWellFormed(K, f.b, e);
      MulDegree(K, f.a, e);
      MulDegree(K, f.b, e);
    }
  }

  // ---------- products of polynomials ----------

  function PolyMul<T>(K: Field<T>, p: seq<T>, q: seq<T>): (r: seq<T>)
    ensures p != [] && q != [] ==> |r| == |p| + |q| - 1
  {
    if p == [] then [] else PolyAdd(K, Scaled(K, p[0], q), [K.zero] + PolyMul(K, p[1..], q))
  }

  lemma EvalShifted<T(!new)>(K: Field<T>, p: seq<T>, x: T)
    requires Lawful(K)
    ensures Eval(K, [K.zero] + p, x) == K.Mul(x, Eval(K, p, x))
  {
    assert ([K.zero] + p)[1..] == p;
    AddComm(K, K.zero, K.Mul(x, Eval(K, p, x)));
    AddZero(K, K.Mul(x, Eval(K, p, x)));
  }

  lemma {:induction false} EvalMul<T(!new)>(K: Field<T>, p: seq<T>, q: seq<T>, x: T)
    requires Lawful(K)
    ensures Eval(K, PolyMul(K, p, q), x) == K.Mul(Eval(K, p, x), Eval(K, q, x))
  {
    var v := Eval(K, q, x);
    if p == [] {
      MulComm(K, K.zero, v);
      MulZero(K, v);
    } else {
      var u, rest := Eval(K, p[1..], x), PolyMul(K, p[1..], q);
      EvalMul(K, p[1..], q, x);
      EvalAdd(K, Scaled(K, p[0], q), [K.zero] + rest, x);
      EvalScaled(K, p[0], q, x);
      EvalShifted(K, rest, x);
      MulAssoc(K, x, u, v);
      Distrib(K, v, p[0], K.Mul(x, u));
    }
  }

  lemma EvalConstant<T(!new)>(K: Field<T>, c: T, x: T)
    requires Lawful(K)
    ensures Eval(K, [c], x) == c
  {
    assert [c][1..] == [];
    MulZero(K, x);
    AddZero(K, c);
  }

  lemma EvalLine<T(!new)>(K: Field<T>, a: T, b: T, x: T)
    requires Lawful(K)
    ensures Eval(K, [a, K.Sub(b, a)], x) == K.Line(a, b, x)
  {
    assert [a, K.Sub(b, a)][1..] == [K.Sub(b, a)];
    EvalConstant(K, K.Sub(b, a), x);
  }

  // ---------- the value along a line of assignments ----------

  /** Assignments that agree on public inputs and challenges. */
  ghost predicate SameScalars<T(!new)>(u: Assignment<T>, v: Assignment<T>) {
    (forall id :: u.instance(id) == v.instance(id)) && forall id :: u.challenge(id) == v.challenge(id)
  }

  /** The assignment on the line through two assignments. */
  ghost function Between<T>(K: Field<T>, u: Assignment<T>, v: Assignment<T>, t: T): Assignment<T> {
    Assignment(id => K.Line(u.wit(id), v.wit(id), t), (id, maxLen, offset, factor) =>
                 K.Line(u.structural(id, maxLen, offset, factor), v.structural(id, maxLen, offset, factor), t),
               id => K.Line(u.fixed(id), v.fixed(id), t), u.instance, u.challenge)
  }

  /** The line starts at the first assignment and passes through the second at one. */
  lemma {:induction false} LineEndpoints<T(!new)>(K: Field<T>, u: Assignment<T>, v: Assignment<T>, e: Expr<T>)
    requires Lawful(K) && SameScalars(u, v)
    ensures Value(K, Between(K, u, v, K.zero), e) == Value(K, u, e)
    ensures Value(K, Between(K, u, v, K.one), e) == Value(K, v, e)
  {
    hide Field<T>.Line, Field<T>.Pow;
    match e
    case Sum(l, r) =>
      LineEndpoints(K, u, v, l);
      LineEndpoints(K, u, v, r);
    case Product(l, r) =>
      LineEndpoints(K, u, v, l);
      LineEndpoints(K, u, v, r);
    case ScaledSum(x, a, b) =>
      LineEndpoints(K, u, v, x);
      LineEndpoints(K, u, v, a);
      LineEndpoints(K, u, v, b);
    case _ =>
      LineEnds(K, Value(K, u, e), Value(K, v, e));
  }

  /** The value of an expression along that line, as a polynomial. */
  ghost function LinePoly<T>(K: Field<T>, u: Assignment<T>, v: Assignment<T>, e: Expr<T>): (p: seq<T>)
    requires WellFormed(e)
    ensures |p| == Degree(e) + 1
  {
    match e
    case WitIn(_) | Fixed(_) | StructuralWitIn(_, _, _, _) =>
      [Value(K, u, e), K.Sub(Value(K, v, e), Value(K, u, e))]
    case Instance(_) | Constant(_) | Challenge(_, _, _, _) => [Value(K, u, e)]
    case Sum(l, r) => PolyAdd(K, LinePoly(K, u, v, l), LinePoly(K, u, v, r))
    case Product(l, r) => PolyMul(K, LinePoly(K, u, v, l), LinePoly(K, u, v, r))
    case ScaledSum(x, a, b) =>
      PolyAdd(K, PolyMul(K, LinePoly(K, u, v, a), LinePoly(K, u, v, x)), LinePoly(K, u, v, b))
  }

  lemma {:induction false} ValueOnLine<T(!new)>(K: Field<T>, u: Assignment<T>, v: Assignment<T>, e: Expr<T>, t: T)
    requires Lawful(K) && WellFormed(e)
    ensures Eval(K, LinePoly(K, u, v, e), t) == Value(K, Between(K, u, v, t), e)
  {
    hide Field<T>.Line, PolyMul, PolyAdd, Eval, Field<T>.Pow;
    match e
    case WitIn(_) | Fixed(_) | StructuralWitIn(_, _, _, _) =>
      EvalLine(K, Value(K, u, e), Value(K, v, e), t);
    case Instance(_) | Constant(_) | Challenge(_, _, _, _) =>
      EvalConstant(K, Value(K, u, e), t);
    case Sum(l, r) =>
      ValueOnLine(K, u, v, l, t);
      ValueOnLine(K, u, v, r, t);
      EvalAdd(K, LinePoly(K, u, v, l), LinePoly(K, u, v, r), t);
    case Product(l, r) =>
      ValueOnLine(K, u, v, l, t);
      ValueOnLine(K, u, v, r, t);
      EvalMul(K, LinePoly(K, u, v, l), LinePoly(K, u, v, r), t);
    case ScaledSum(x, a, b) =>
      var p, q, s := LinePoly(K, u, v, a), LinePoly(K, u, v, x), LinePoly(K, u, v, b);
      ValueOnLine(K, u, v, x, t);
      ValueOnLine(K, u, v, a, t);
      ValueOnLine(K, u, v, b, t);
      EvalMul(K, p, q, t);
      EvalAdd(K, PolyMul(K, p, q), s, t);
  }

  /** On the line through two assignments the value is a polynomial of at most the degree of the expression. */
  lemma DegreeBounds<T(!new)>(K: Field<T>, u: Assignment<T>, v: Assignment<T>, e: Expr<T>) returns (p: seq<T>)
    requires Lawful(K) && WellFormed(e)
    ensures |p| == Degree(e) + 1
    ensures forall t: T :: Value(K, Between(K, u, v, t), e) == Eval(K, p, t)
  {
    hide LinePoly, Between;
    p := LinePoly(K, u, v, e);
    forall t: T ensures Value(K, Between(K, u, v, t), e) == Eval(K, p, t) { ValueOnLine(K, u, v, e, t); }
  }

  // ---------- the degree counts columns ----------

  /** A scalar times a product of columns. */
  datatype Term<T> = Term(scalar: Expr<T>, product: seq<Expr<T>>)

  function TimesTerm<T(==)>(K: Field<T>, s: Term<T>, t: Term<T>): Term<T> {
    Term(MulExpr(K, s.scalar, t.scalar), s.product + t.product)
  }

  function TermTimes<T(==)>(K: Field<T>, s: Term<T>, ts: seq<Term<T>>): (r: seq<Term<T>>)
    ensures |r| == |ts| && forall i :: 0 <= i < |r| ==> r[i] == TimesTerm(K, s, ts[i])
  {
    seq(|ts|, i requires 0 <= i < |ts| => TimesTerm(K, s, ts[i]))
  }

  /** `iproduct!`: all pairs, the first index outermost. */
  function Pairs<T(==)>(K: Field<T>, ss: seq<Term<T>>, ts: seq<Term<T>>): (r: seq<Term<T>>)
    ensures |r| == |ss| * |ts|
  {
    if ss == [] then [] else TermTimes(K, ss[0], ts) + Pairs(K, ss[1..], ts)
  }

  /** `distribute`: the expression as a sum of terms. */
  function Distribute<T(==)>(K: Field<T>, e: Expr<T>): seq<Term<T>> {
    match e
    case Constant(_) | Challenge(_, _, _, _) | Instance(_) => [Term(e, [])]
    case Fixed(_) | WitIn(_) | StructuralWitIn(_, _, _, _) => [Term(Constant(K.one), [e])]
    case Sum(l, r) => Distribute(K, l) + Distribute(K, r)
    case Product(l, r) => Pairs(K, Distribute(K, l), Distribute(K, r))
    case ScaledSum(x, a, b) => Distribute(K, b) + Pairs(K, Distribute(K, x), Distribute(K, a))
  }

  function ProductValue<T>(K: Field<T>, env: Assignment<T>, es: seq<Expr<T>>): T {
    if es == [] then K.one else K.Mul(Value(K, env, es[0]), ProductValue(K, env, es[1..]))
  }

  function TermValue<T>(K: Field<T>, env: Assignment<T>, t: Term<T>): T {
    K.Mul(Value(K, env, t.scalar), ProductValue(K, env, t.product))
  }

  function TermsValue<T>(K: Field<T>, env: Assignment<T>, ts: seq<Term<T>>): T {
    if ts == [] then K.zero else K.Add(TermValue(K, env, ts[0]), TermsValue(K, env, ts[1..]))
  }

  lemma {:induction false} ProductConcat<T(!new)>(K: Field<T>, env: Assignment<T>, s: seq<Expr<T>>, t: seq<Expr<T>>)
    requires Lawful(K)
    ensures ProductValue(K, env, s + t) == K.Mul(ProductValue(K, env, s), ProductValue(K, env, t))
  {
    var v := ProductValue(K, env, t);
    if s == [] {
      assert s + t == t;
      MulOne(K, v);
      MulComm(K, v, K.one);
    } else {
      assert (s + t)[1..] == s[1..] + t;
      ProductConcat(K, env, s[1..], t);
      MulAssoc(K, Value(K, env, s[0]), ProductValue(K, env, s[1..]), v);
    }
  }

  lemma {:induction false} TermsConcat<T(!new)>(K: Field<T>, env: Assignment<T>, s: seq<Term<T>>, t: seq<Term<T>>)
    requires Lawful(K)
    ensures TermsValue(K, env, s + t) == K.Add(TermsValue(K, env, s), TermsValue(K, env, t))
  {
    hide TermValue;
    var v := TermsValue(K, env, t);
    if s == [] {
      assert s + t == t;
      AddZero(K, v);
      AddComm(K, v, K.zero);
    } else {
      assert (s + t)[1..] == s[1..] + t;
      TermsConcat(K, env, s[1..], t);
      AddAssoc(K, TermValue(K, env, s[0]), TermsValue(K, env, s[1..]), v);
    }
  }

  lemma TimesTermValue<T(!new)>(K: Field<T>, env: Assignment<T>, s: Term<T>, t: Term<T>)
    requires Lawful(K)
    ensures TermValue(K, env, TimesTerm(K, s, t)) == K.Mul(TermValue(K, env, s), TermValue(K, env, t))
  {
    hide MulExpr, Value, ProductValue;
    MulValue(K, env, s.scalar, t.scalar);
    ProductConcat(K, env, s.product, t.product);
    MulSwap(K, Value(K, env, s.scalar), ProductValue(K, env, s.product), Value(K, env, t.scalar),
            ProductValue(K, env, t.product));
  }

  lemma {:induction false} TermTimesValue<T(!new)>(K: Field<T>, env: Assignment<T>, s: Term<T>, ts: seq<Term<T>>)
    requires Lawful(K)
    ensures TermsValue(K, env, TermTimes(K, s, ts)) == K.Mul(TermValue(K, env, s), TermsValue(K, env, ts))
  {
    hide TermValue, TimesTerm;
    var v := TermValue(K, env, s);
    if ts == [] {
      MulZero(K, v);
    } else {
      assert TermTimes(K, s, ts)[1..] == TermTimes(K, s, ts[1..]);
      TermTimesValue(K, env, s, ts[1..]);
      TimesTermValue(K, env, s, ts[0]);
      var x, y := TermValue(K, env, ts[0]), TermsValue(K, env, ts[1..]);
      Distrib(K, v, x, y);
      MulComm(K, v, x);
      MulComm(K, v, y);
      MulComm(K, v, K.Add(x, y));
    }
  }

  lemma {:induction false} PairsValue<T(!new)>(K: Field<T>, env: Assignment<T>, ss: seq<Term<T>>, ts: seq<Term<T>>)
    requires Lawful(K)
    ensures TermsValue(K, env, Pairs(K, ss, ts)) == K.Mul(TermsValue(K, env, ss), TermsValue(K, env, ts))
  {
    hide TermValue, TermTimes;
    var v := TermsValue(K, env, ts);
    if ss == [] {
      MulComm(K, K.zero, v);
      MulZero(K, v);
    } else {
      PairsValue(K, env, ss[1..], ts);
      TermTimesValue(K, env, ss[0], ts);
      TermsConcat(K, env, TermTimes(K, ss[0], ts), Pairs(K, ss[1..], ts));
      Distrib(K, v, TermValue(K, env, ss[0]), TermsValue(K, env, ss[1..]));
    }
  }

  /** Distributing an expression keeps its value. */
  lemma {:induction false} DistributeValue<T(!new)>(K: Field<T>, env: Assignment<T>, e: Expr<T>)
    requires Lawful(K)
    ensures TermsValue(K, env, Distribute(K, e)) == Value(K, env, e)
  {
    hide Pairs, Field<T>.Pow;
    match e
    case Sum(l, r) =>
      DistributeValue(K, env, l);
      DistributeValue(K, env, r);
      TermsConcat(K, env, Distribute(K, l), Distribute(K, r));
    case Product(l, r) =>
      DistributeValue(K, env, l);
      DistributeValue(K, env, r);
      PairsValue(K, env, Distribute(K, l), Distribute(K, r));
    case ScaledSum(x, a, b) =>
      DistributeValue(K, env, x);
      DistributeValue(K, env, a);
      DistributeValue(K, env, b);
      PairsValue(K, env, Distribute(K, x), Distribute(K, a));
      TermsConcat(K, env, Distribute(K, b), Pairs(K, Distribute(K, x), Distribute(K, a)));
      var p, q := K.Mul(Value(K, env, a), Value(K, env, x)), Value(K, env, b);
      MulComm(K, Value(K, env, a), Value(K, env, x));
      AddComm(K, p, q);
    case Constant(_) | Challenge(_, _, _, _) | Instance(_) => ScalarTerm(K, env, e);
    case Fixed(_) | WitIn(_) | StructuralWitIn(_, _, _, _) => ColumnTerm(K, env, e);
  }

  lemma ScalarTerm<T(!new)>(K: Field<T>, env: Assignment<T>, e: Expr<T>)
    requires Lawful(K)
    ensures TermsValue(K, env, [Term(e, [])]) == Value(K, env, e)
  {
    assert [Term(e, [])][1..] == [];
    AddZero(K, TermValue(K, env, Term(e, [])));
    MulOne(K, Value(K, env, e));
  }

  lemma ColumnTerm<T(!new)>(K: Field<T>, env: Assignment<T>, e: Expr<T>)
    requires Lawful(K)
    ensures TermsValue(K, env, [Term(Constant(K.one), [e])]) == Value(K, env, e)
  {
    var t := Term(Constant(K.one), [e]);
    assert [t][1..] == [] && [e][1..] == [];
    assert ProductValue(K, env, [e]) == K.Mul(Value(K, env, e), K.one);
    AddZero(K, TermValue(K, env, t));
    MulOne(K, Value(K, env, e));
    MulComm(K, Value(K, env, e), K.one);
  }

  predicate IsAnyColumn<T>(e: Expr<T>) { e.WitIn? || e.Fixed? || e.StructuralWitIn? }

  /** Scalars of degree zero times columns. */
  ghost predicate Monomials<T>(ts: seq<Term<T>>) {
    forall i :: 0 <= i < |ts| ==> Monomial(ts[i])
  }

  ghost predicate Monomial<T>(t: Term<T>) {
    Degree(t.scalar) == 0 && forall j :: 0 <= j < |t.product| ==> IsAnyColumn(t.product[j])
  }

  lemma {:induction false} PairsMonomials<T>(K: Field<T>, ss: seq<Term<T>>, ts: seq<Term<T>>)
    requires Monomials(ss) && Monomials(ts)
    ensures Monomials(Pairs(K, ss, ts))
  {
    hide MulExpr, Degree, IsAnyColumn;
    if ss != [] {
      forall i | 0 <= i < |ss[1..]| ensures Monomial(ss[1..][i]) { assert Monomial(ss[i + 1]); }
      PairsMonomials(K, ss[1..], ts);
      forall i | 0 <= i < |ts| ensures Monomial(TermTimes(K, ss[0], ts)[i]) {
        assert Monomial(ss[0]) && Monomial(ts[i]);
        MulDegree(K, ss[0].scalar, ts[i].scalar);
      }
    }
  }

  /** Every term is a scalar times columns. */
  lemma {:induction false} DistributeMonomials<T>(K: Field<T>, e: Expr<T>)
    ensures Monomials(Distribute(K, e))
  {
    hide Pairs;
    match e
    case Sum(l, r) =>
      DistributeMonomials(K, l);
      DistributeMonomials(K, r);
    case Product(l, r) =>
      DistributeMonomials(K, l);
      DistributeMonomials(K, r);
      PairsMonomials(K, Distribute(K, l), Distribute(K, r));
    case ScaledSum(x, a, b) =>
      DistributeMonomials(K, x);
      DistributeMonomials(K, a);
      DistributeMonomials(K, b);
      PairsMonomials(K, Distribute(K, x), Distribute(K, a));
    case _ =>
  }

  /** The number of columns in the longest product. */
  function Longest<T>(ts: seq<Term<T>>): nat {
    if ts == [] then 0 else Max(|ts[0].product|, Longest(ts[1..]))
  }

  lemma {:induction false} LongestConcat<T>(s: seq<Term<T>>, t: seq<Term<T>>)
    ensures Longest(s + t) == Max(Longest(s), Longest(t))
  {
    if s == [] {
      assert s + t == t;
    } else {
      assert (s + t)[1..] == s[1..] + t;
      LongestConcat(s[1..], t);
    }
  }

  lemma {:induction false} LongestTimes<T>(K: Field<T>, s: Term<T>, ts: seq<Term<T>>)
    requires ts != []
    ensures Longest(TermTimes(K, s, ts)) == |s.product| + Longest(ts)
  {
    hide MulExpr;
    assert TermTimes(K, s, ts)[1..] == TermTimes(K, s, ts[1..]);
    if |ts| > 1 { LongestTimes(K, s, ts[1..]); }
  }

  lemma {:induction false} LongestPairs<T>(K: Field<T>, ss: seq<Term<T>>, ts: seq<Term<T>>)
    requires ss != [] && ts != []
    ensures Longest(Pairs(K, ss, ts)) == Longest(ss) + Longest(ts) && Pairs(K, ss, ts) != []
  {
    hide TermTimes;
    LongestTimes(K, ss[0], ts);
    LongestConcat(TermTimes(K, ss[0], ts), Pairs(K, ss[1..], ts));
    if |ss| > 1 { LongestPairs(K, ss[1..], ts); }
  }

  /** The degree of a well-formed expression is exactly the number of columns in the longest of its terms. */
  lemma {:induction false} DegreeCountsColumns<T>(K: Field<T>, e: Expr<T>)
    requires WellFormed(e)
    ensures Distribute(K, e) != [] && Longest(Distribute(K, e)) == Degree(e)
  {
    hide Pairs, MulExpr;
    match e
    case Sum(l, r) =>
      DegreeCountsColumns(K, l);
      DegreeCountsColumns(K, r);
      LongestConcat(Distribute(K, l), Distribute(K, r));
    case Product(l, r) =>
      DegreeCountsColumns(K, l);
      DegreeCountsColumns(K, r);
      LongestPairs(K, Distribute(K, l), Distribute(K, r));
    case ScaledSum(x, a, b) =>
      DegreeCountsColumns(K, x);
      DegreeCountsColumns(K, a);
      DegreeCountsColumns(K, b);
      LongestPairs(K, Distribute(K, x), Distribute(K, a));
      LongestConcat(Distribute(K, b), Pairs(K, Distribute(K, x), Distribute(K, a)));
    case _ =>
  }
}

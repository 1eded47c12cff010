/** Univariate polynomials as coefficient sequences, lowest degree first. */
module Polynomials {
  import opened Fields
  import opened Sums

  function Eval<T>(K: Field<T>, p: seq<T>, x: T): T {
    if p == [] then K.zero else K.Add(p[0], K.Mul(x, Eval(K, p[1..], x)))
  }

  /** The sum of two polynomials; the shorter one is padded with zeros. */
  function PolyAdd<T>(K: Field<T>, p: seq<T>, q: seq<T>): (r: seq<T>)
    ensures |r| == if |p| >= |q| then |p| else |q|
  {
    if p == [] then q else if q == [] then p
    else [K.Add(p[0], q[0])] + PolyAdd(K, p[1..], q[1..])
  }

  /** The product of p with the line a + d*x. */
  function MulLinear<T>(K: Field<T>, a: T, d: T, p: seq<T>): (r: seq<T>)
    ensures |r| == |p| + 1
  {
    PolyAdd(K, Scaled(K, a, p), [K.zero] + Scaled(K, d, p))
  }

  ghost predicate IsZero<T>(K: Field<T>, p: seq<T>) {
    forall i :: 0 <= i < |p| ==> p[i] == K.zero
  }

  lemma {:induction false} EvalAdd<T(!new)>(K: Field<T>, p: seq<T>, q: seq<T>, x: T)
    requires Lawful(K)
    ensures Eval(K, PolyAdd(K, p, q), x) == K.Add(Eval(K, p, x), Eval(K, q, x))
  {
    if p == [] {
      AddZero(K, Eval(K, q, x));
    } else if q == [] {
      AddZero(K, Eval(K, p, x));
    } else {
      EvalAdd(K, p[1..], q[1..], x);
      var u, v := Eval(K, p[1..], x), Eval(K, q[1..], x);
      assert PolyAdd(K, p, q)[1..] == PolyAdd(K, p[1..], q[1..]);
      Distrib(K, x, u, v);
      AddSwap(K, p[0], q[0], K.Mul(x, u), K.Mul(x, v));
    }
  }

  lemma {:induction false} EvalScaled<T(!new)>(K: Field<T>, c: T, p: seq<T>, x: T)
    requires Lawful(K)
    ensures Eval(K, Scaled(K, c, p), x) == K.Mul(c, Eval(K, p, x))
  {
    if p == [] {
      MulZero(K, c);
    } else {
      assert Scaled(K, c, p)[1..] == Scaled(K, c, p[1..]);
      EvalScaled(K, c, p[1..], x);
      var u := Eval(K, p[1..], x);
      Distrib(K, c, p[0], K.Mul(x, u));
      MulAssoc(K, c, x, u);
      MulAssoc(K, x, c, u);
      MulComm(K, x, c);
    }
  }

  lemma EvalMulLinear<T(!new)>(K: Field<T>, a: T, d: T, p: seq<T>, x: T)
    requires Lawful(K)
    ensures Eval(K, MulLinear(K, a, d, p), x) == K.Mul(K.Add(a, K.Mul(x, d)), Eval(K, p, x))
  {
    var u := Eval(K, p, x);
    var shifted := [K.zero] + Scaled(K, d, p);
    EvalAdd(K, Scaled(K, a, p), shifted, x);
    EvalScaled(K, a, p, x);
    assert shifted[1..] == Scaled(K, d, p);
    EvalScaled(K, d, p, x);
    AddZero(K, K.Mul(x, K.Mul(d, u)));
    MulAssoc(K, x, d, u);
    Distrib(K, u, a, K.Mul(x, d));
  }

  lemma {:induction false} EvalZeros<T(!new)>(K: Field<T>, p: seq<T>, x: T)
    requires Lawful(K) && IsZero(K, p)
    ensures Eval(K, p, x) == K.zero
  {
    if p != [] {
      EvalZeros(K, p[1..], x);
      MulZero(K, x);
      AddZero(K, K.zero);
    }
  }

  // ---------- roots ----------

  /** The quotient of p - p(a) by x - a. */
  function Quotient<T>(K: Field<T>, p: seq<T>, a: T): (q: seq<T>)
    requires p != []
    ensures |q| == |p| - 1
  {
    if |p| == 1 then [] else [Eval(K, p[1..], a)] + Quotient(K, p[1..], a)
  }

  lemma {:induction false} QuotientEval<T(!new)>(K: Field<T>, p: seq<T>, a: T, x: T)
    requires Lawful(K) && p != []
    ensures K.Sub(Eval(K, p, x), Eval(K, p, a)) == K.Mul(K.Sub(x, a), Eval(K, Quotient(K, p, a), x))
  {
    var t := p[1..];
    var tx, ta := Eval(K, t, x), Eval(K, t, a);
    SubAdd(K, p[0], K.Mul(x, tx), p[0], K.Mul(a, ta));
    SubSelf(K, p[0]);
    AddZero(K, K.Sub(K.Mul(x, tx), K.Mul(a, ta)));
    if |p| == 1 {
      MulZero(K, x);
      MulZero(K, a);
      SubSelf(K, K.zero);
      MulZero(K, K.Sub(x, a));
    } else {
      var q := Quotient(K, t, a);
      var qx := Eval(K, q, x);
      QuotientEval(K, t, a, x);
      assert Quotient(K, p, a)[1..] == q;
      // (x - a)(ta + x qx) = (x ta - a ta) + x (tx - ta) = x tx - a ta
      Distrib(K, K.Sub(x, a), ta, K.Mul(x, qx));
      MulAssoc(K, K.Sub(x, a), x, qx);
      MulComm(K, K.Sub(x, a), x);
      MulAssoc(K, x, K.Sub(x, a), qx);
      MulSub(K, ta, x, a);
      MulSub(K, x, tx, ta);
      AddComm(K, K.Sub(K.Mul(x, ta), K.Mul(a, ta)), K.Sub(K.Mul(x, tx), K.Mul(x, ta)));
      Telescope(K, K.Mul(x, tx), K.Mul(x, ta), K.Mul(a, ta));
    }
  }

  lemma Telescope<T(!new)>(K: Field<T>, a: T, b: T, c: T)
    requires Lawful(K)
    ensures K.Add(K.Sub(a, b), K.Sub(b, c)) == K.Sub(a, c)
  {
    AddAssoc(K, K.Sub(a, b), b, K.Neg(c));
    AddSub(K, b, a);
  }

  lemma {:induction false} ZeroQuotient<T(!new)>(K: Field<T>, p: seq<T>, a: T)
    requires Lawful(K) && p != [] && IsZero(K, Quotient(K, p, a))
    ensures IsZero(K, p[1..])
  {
    if |p| > 1 {
      var t, q := p[1..], Quotient(K, p, a);
      assert q[1..] == Quotient(K, t, a);
      forall i | 0 <= i < |q| - 1 ensures q[1..][i] == K.zero { assert q[i + 1] == K.zero; }
      ZeroQuotient(K, t, a);
      EvalZeros(K, t[1..], a);
      MulZero(K, a);
      AddZero(K, t[0]);
      assert q[0] == K.zero;
    }
  }

  /** A polynomial with |p| coefficients that vanishes on at least |p| points is the zero polynomial. */
  lemma {:induction false} TooManyRoots<T(!new)>(K: Field<T>, p: seq<T>, roots: set<T>)
    requires Lawful(K) && |roots| >= |p|
    requires forall x :: x in roots ==> Eval(K, p, x) == K.zero
    ensures IsZero(K, p)
    decreases |p|
  {
    if p != [] {
      var a :| a in roots;
      var q := Quotient(K, p, a);
      forall x | x in roots - {a} ensures Eval(K, q, x) == K.zero {
        QuotientEval(K, p, a, x);
        SubSelf(K, K.zero);
        NoZeroDivisors(K, K.Sub(x, a), Eval(K, q, x));
        if K.Sub(x, a) == K.zero { SubZeroEqual(K, x, a); }
      }
      TooManyRoots(K, q, roots - {a});
      ZeroQuotient(K, p, a);
      EvalZeros(K, p[1..], a);
      MulZero(K, a);
      AddZero(K, p[0]);
      forall i | 0 <= i < |p| ensures p[i] == K.zero {
        if i > 0 { assert p[i] == p[1..][i - 1]; }
      }
    }
  }

  function Difference<T>(K: Field<T>, p: seq<T>, q: seq<T>): (r: seq<T>)
    ensures |r| == if |p| >= |q| then |p| else |q|
  {
    PolyAdd(K, p, Scaled(K, K.Neg(K.one), q))
  }

  lemma EvalDifference<T(!new)>(K: Field<T>, p: seq<T>, q: seq<T>, x: T)
    requires Lawful(K)
    ensures Eval(K, Difference(K, p, q), x) == K.Sub(Eval(K, p, x), Eval(K, q, x))
  {
    EvalAdd(K, p, Scaled(K, K.Neg(K.one), q), x);
    EvalScaled(K, K.Neg(K.one), q, x);
    NegMul(K, K.one, Eval(K, q, x));
    MulOne(K, Eval(K, q, x));
  }

  /** Two polynomials of at most n coefficients that agree on n points agree everywhere. */
  lemma AgreeEverywhere<T(!new)>(K: Field<T>, p: seq<T>, q: seq<T>, points: set<T>, x: T)
    requires Lawful(K) && |p| <= |points| && |q| <= |points|
    requires forall a :: a in points ==> Eval(K, p, a) == Eval(K, q, a)
    ensures Eval(K, p, x) == Eval(K, q, x)
  {
    var d := Difference(K, p, q);
    forall a | a in points ensures Eval(K, d, a) == K.zero {
      EvalDifference(K, p, q, a);
      SubSelf(K, Eval(K, p, a));
    }
    TooManyRoots(K, d, points);
    EvalZeros(K, d, x);
    EvalDifference(K, p, q, x);
    SubZeroEqual(K, Eval(K, p, x), Eval(K, q, x));
  }
}

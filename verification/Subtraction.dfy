/** Subtraction of expressions.  A constant minus a challenge keeps the sign of the scalar of the challenge, so the
    result is the difference exactly when no such arm is reached with a scalar other than zero. */
module Subtraction {
  import opened Fields
  import opened Expressions
  import opened Degrees

  function SubExpr<T>(K: Field<T>, e: Expr<T>, f: Expr<T>): Expr<T>
    decreases Size(e) + Size(f)
  {
    if (IsColumn(e) || e.Instance?) && IsScalar(f) then ScaledSum(e, Constant(K.one), NegExpr(K, f))
    else if IsScalar(e) && (IsColumn(f) || f.Instance?) then ScaledSum(f, Constant(K.Neg(K.one)), e)
    else if e.Constant? && f.Challenge? then Challenge(f.id, f.pow, f.scalar, K.Add(K.Neg(f.shift), e.c))
    else if e.Challenge? && f.Constant? then Challenge(e.id, e.pow, e.scalar, K.Sub(e.shift, f.c))
    else if e.Challenge? && f.Challenge? && e.id == f.id && e.pow == f.pow then
      Challenge(e.id, e.pow, K.Sub(e.scalar, f.scalar), K.Sub(e.shift, f.shift))
    else if e.Constant? && f.Constant? then Constant(K.Sub(e.c, f.c))
    else if IsScalar(e) && f.ScaledSum? then ScaledSum(f.x, NegExpr(K, f.a), SubExpr(K, e, f.b))
    else if e.ScaledSum? && IsScalar(f) then ScaledSum(e.x, e.a, SubExpr(K, e.b, f))
    else Sum(e, NegExpr(K, f))
  }

  /** What the result is too large by: twice the power of a challenge that is taken from a constant. */
  function Excess<T>(K: Field<T>, env: Assignment<T>, e: Expr<T>, f: Expr<T>): T
    decreases Size(e) + Size(f)
  {
    if e.Constant? && f.Challenge? then
      var p := K.Mul(f.scalar, K.Pow(env.challenge(f.id), f.pow));
      K.Add(p, p)
    else if IsScalar(e) && f.ScaledSum? then Excess(K, env, e, f.b)
    else if e.ScaledSum? && IsScalar(f) then Excess(K, env, e.b, f)
    else K.zero
  }

  /** A challenge with a scalar is taken from a constant, possibly within scaled sums. */
  predicate FlipsSign<T(==)>(K: Field<T>, e: Expr<T>, f: Expr<T>)
    decreases Size(e) + Size(f)
  {
    if e.Constant? && f.Challenge? then f.scalar != K.zero
    else if IsScalar(e) && f.ScaledSum? then FlipsSign(K, e, f.b)
    else if e.ScaledSum? && IsScalar(f) then FlipsSign(K, e.b, f)
    else false
  }

  lemma TimesMinusOne<T(!new)>(K: Field<T>, v: T)
    requires Lawful(K)
    ensures K.Mul(K.Neg(K.one), v) == K.Neg(v)
  {
    NegMul(K, K.one, v);
    MulOne(K, v);
    MulComm(K, v, K.one);
  }

  /** The challenge keeps its sign. */
  lemma FlippedValue<T(!new)>(K: Field<T>, c: T, p: T, o: T)
    requires Lawful(K)
    ensures K.Add(p, K.Add(K.Neg(o), c)) == K.Add(K.Sub(c, K.Add(p, o)), K.Add(p, p))
  {
    var n, m := K.Neg(p), K.Neg(o);
    NegAdd(K, p, o);
    AddComm(K, n, m);
    AddAssoc(K, c, m, n);
    AddAssoc(K, K.Add(c, m), n, K.Add(p, p));
    AddAssoc(K, n, p, p);
    AddComm(K, n, p);
    SubSelf(K, p);
    AddComm(K, K.zero, p);
    AddZero(K, p);
    AddComm(K, c, m);
    AddComm(K, K.Add(c, m), p);
  }

  lemma ScaledRight<T(!new)>(K: Field<T>, y: T, u: T, b: T, d: T)
    requires Lawful(K)
    ensures K.Add(K.Neg(y), K.Add(K.Sub(u, b), d)) == K.Add(K.Sub(u, K.Add(y, b)), d)
  {
    var n := K.Neg(y);
    NegAdd(K, y, b);
    AddAssoc(K, n, K.Sub(u, b), d);
    AddAssoc(K, n, u, K.Neg(b));
    AddAssoc(K, u, n, K.Neg(b));
    AddComm(K, n, u);
  }

  lemma ScaledLeft<T(!new)>(K: Field<T>, y: T, b: T, v: T, d: T)
    requires Lawful(K)
    ensures K.Add(y, K.Add(K.Sub(b, v), d)) == K.Add(K.Sub(K.Add(y, b), v), d)
  {
    AddAssoc(K, y, K.Sub(b, v), d);
    AddAssoc(K, y, b, K.Neg(v));
  }

  lemma SubScalars<T(!new)>(K: Field<T>, env: Assignment<T>, e: Expr<T>, f: Expr<T>)
    requires Lawful(K) && IsScalar(e) && IsScalar(f)
    ensures Value(K, env, SubExpr(K, e, f)) == K.Add(K.Sub(Value(K, env, e), Value(K, env, f)), Excess(K, env, e, f))
  {
    hide Field<T>.Pow;
    AddZero(K, K.Sub(Value(K, env, e), Value(K, env, f)));
    if e.Constant? && f.Challenge? {
      FlippedValue(K, e.c, K.Mul(f.scalar, K.Pow(env.challenge(f.id), f.pow)), f.shift);
    } else if e.Challenge? && f.Constant? {
      AddAssoc(K, K.Mul(e.scalar, K.Pow(env.challenge(e.id), e.pow)), e.shift, K.Neg(f.c));
    } else if e.Challenge? && f.Challenge? && e.id == f.id && e.pow == f.pow {
      var p := K.Pow(env.challenge(e.id), e.pow);
      SubAdd(K, K.Mul(e.scalar, p), e.shift, K.Mul(f.scalar, p), f.shift);
      Distrib(K, p, e.scalar, K.Neg(f.scalar));
      NegMul(K, f.scalar, p);
    } else if e.Challenge? && f.Challenge? {
      NegValue(K, env, f);
    }
  }

  /** The value of the result: the difference plus the excess, for all expressions and assignments. */
  lemma {:induction false} SubValue<T(!new)>(K: Field<T>, env: Assignment<T>, e: Expr<T>, f: Expr<T>)
    requires Lawful(K)
    ensures Value(K, env, SubExpr(K, e, f)) == K.Add(K.Sub(Value(K, env, e), Value(K, env, f)), Excess(K, env, e, f))
    decreases Size(e) + Size(f)
  {
    hide Field<T>.Pow;
    var u, v := Value(K, env, e), Value(K, env, f);
    if IsScalar(e) && IsScalar(f) {
      SubScalars(K, env, e, f);
    } else if IsScalar(e) && f.ScaledSum? {
      SubValue(K, env, e, f.b);
      NegValue(K, env, f.a);
      NegMul(K, Value(K, env, f.a), Value(K, env, f.x));
      ScaledRight(K, K.Mul(Value(K, env, f.a), Value(K, env, f.x)), u, Value(K, env, f.b), Excess(K, env, e, f.b));
    } else if e.ScaledSum? && IsScalar(f) {
      SubValue(K, env, e.b, f);
      ScaledLeft(K, K.Mul(Value(K, env, e.a), Value(K, env, e.x)), Value(K, env, e.b), v, Excess(K, env, e.b, f));
    } else {
      NegValue(K, env, f);
      AddZero(K, K.Sub(u, v));
      MulOne(K, u);
      MulComm(K, u, K.one);
      TimesMinusOne(K, v);
      AddComm(K, K.Neg(v), u);
    }
  }

  lemma {:induction false} NoExcess<T(!new)>(K: Field<T>, env: Assignment<T>, e: Expr<T>, f: Expr<T>)
    requires Lawful(K) && !FlipsSign(K, e, f)
    ensures Excess(K, env, e, f) == K.zero
    decreases Size(e) + Size(f)
  {
    hide Field<T>.Pow;
    if e.Constant? && f.Challenge? {
      var p := K.Pow(env.challenge(f.id), f.pow);
      MulComm(K, K.zero, p);
      MulZero(K, p);
      AddZero(K, K.zero);
    } else if IsScalar(e) && f.ScaledSum? {
      NoExcess(K, env, e, f.b);
    } else if e.ScaledSum? && IsScalar(f) {
      NoExcess(K, env, e.b, f);
    }
  }

  /** Everything is one. */
  function AllOnes<T>(K: Field<T>): Assignment<T> {
    Assignment(_ => K.one, (_, _, _, _) => K.one, _ => K.one, _ => K.one, _ => K.one)
  }

  lemma {:induction false} PowOne<T(!new)>(K: Field<T>, n: nat)
    requires Lawful(K)
    ensures K.Pow(K.one, n) == K.one
  {
    if n > 0 {
      PowOne(K, n - 1);
      MulOne(K, K.one);
    }
  }

  lemma {:induction false} SomeExcess<T(!new)>(K: Field<T>, e: Expr<T>, f: Expr<T>)
    requires Lawful(K) && K.Add(K.one, K.one) != K.zero && FlipsSign(K, e, f)
    ensures Excess(K, AllOnes(K), e, f) != K.zero
    decreases Size(e) + Size(f)
  {
    hide Field<T>.Pow;
    if e.Constant? && f.Challenge? {
      var s := f.scalar;
      PowOne(K, f.pow);
      MulOne(K, s);
      Distrib(K, s, K.one, K.one);
      MulComm(K, s, K.one);
      if K.Add(s, s) == K.zero {
        NoZeroDivisors(K, K.Add(K.one, K.one), s);
        assert false;
      }
    } else if IsScalar(e) && f.ScaledSum? {
      SomeExcess(K, e, f.b);
    } else if e.ScaledSum? && IsScalar(f) {
      SomeExcess(K, e.b, f);
    }
  }

  ghost predicate IsDifference<T(!new)>(K: Field<T>, env: Assignment<T>, e: Expr<T>, f: Expr<T>) {
    Value(K, env, SubExpr(K, e, f)) == K.Sub(Value(K, env, e), Value(K, env, f))
  }

  /** Where two is not zero, subtraction gives the difference under every assignment if and only if it takes no
      challenge with a scalar other than zero from a constant. */
  lemma SubtractionExact<T(!new)>(K: Field<T>, e: Expr<T>, f: Expr<T>)
    requires Lawful(K) && K.Add(K.one, K.one) != K.zero
    ensures (forall env: Assignment<T> :: IsDifference(K, env, e, f)) <==> !FlipsSign(K, e, f)
  {
    hide Value, SubExpr, Excess, FlipsSign;
    if FlipsSign(K, e, f) {
      var env := AllOnes(K);
      var d := K.Sub(Value(K, env, e), Value(K, env, f));
      SubValue(K, env, e, f);
      SomeExcess(K, e, f);
      AddZero(K, d);
      if IsDifference(K, env, e, f) {
        AddComm(K, d, Excess(K, env, e, f));
        AddComm(K, d, K.zero);
        AddCancel(K, d, Excess(K, env, e, f), K.zero);
        assert false;
      }
    } else {
      forall env: Assignment<T> ensures IsDifference(K, env, e, f) {
        SubValue(K, env, e, f);
        NoExcess(K, env, e, f);
        AddZero(K, K.Sub(Value(K, env, e), Value(K, env, f)));
      }
    }
  }

  /** The input: one minus a challenge. */
  lemma ConstantMinusChallenge<T(!new)>(K: Field<T>)
    requires Lawful(K) && K.Add(K.one, K.one) != K.zero
    ensures !IsDifference(K, AllOnes(K), Constant(K.one), Challenge(0, 1, K.one, K.zero))
  {
    var env, e, f := AllOnes(K), Constant(K.one), Challenge(0, 1, K.one, K.zero);
    var d := K.Sub(Value(K, env, e), Value(K, env, f));
    hide Value, SubExpr, Excess;
    SubValue(K, env, e, f);
    SomeExcess(K, e, f);
    AddZero(K, d);
    if IsDifference(K, env, e, f) {
      AddCancel(K, d, Excess(K, env, e, f), K.zero);
      assert false;
    }
  }

  lemma {:induction false} SubWellFormed<T>(K: Field<T>, e: Expr<T>, f: Expr<T>)
    requires WellFormed(e) && WellFormed(f)
    ensures WellFormed(SubExpr(K, e, f)) && Degree(SubExpr(K, e, f)) == Max(Degree(e), Degree(f))
    decreases Size(e) + Size(f)
  {
    NegWellFormed(K, f);
    if IsScalar(e) && f.ScaledSum? {
      NegWellFormed(K, f.a);
      SubWellFormed(K, e, f.b);
    } else if e.ScaledSum? && IsScalar(f) {
      SubWellFormed(K, e.b, f);
    }
  }
}

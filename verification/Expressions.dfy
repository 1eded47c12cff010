/** Symbolic expressions and their rewriting operators: negation, addition and multiplication keep the value under every
    assignment and the degree exactly; the combination of a record then has its intended value. */
module Expressions {
  import opened Fields
  import opened Sums

  datatype Expr<T> =
    | WitIn(id: nat)
    | StructuralWitIn(id: nat, maxLen: nat, offset: nat, multiFactor: nat)
    | Fixed(id: nat)
    | Instance(id: nat)
    | Constant(c: T)
    | Sum(left: Expr<T>, right: Expr<T>)
    | Product(left: Expr<T>, right: Expr<T>)
    | ScaledSum(x: Expr<T>, a: Expr<T>, b: Expr<T>)
    | Challenge(id: nat, pow: nat, scalar: T, shift: T)

  /** The values of everything an expression can mention. */
  datatype Assignment<!T> = Assignment(wit: nat -> T, structural: (nat, nat, nat, nat) -> T, fixed: nat -> T,
                                       instance: nat -> T,
                                       challenge: nat -> T)

  /** `evaluate_with_instance` with the field operations: ScaledSum(x, a, b) is a*x + b, and a challenge is
      scalar * c^pow + shift. */
  function Value<T>(K: Field<T>, env: Assignment<T>, e: Expr<T>): T {
    match e
    case WitIn(id) => env.wit(id)
    case StructuralWitIn(id, maxLen, offset, multiFactor) => env.structural(id, maxLen, offset, multiFactor)
    case Fixed(id) => env.fixed(id)
    case Instance(id) => env.instance(id)
    case Constant(c) => c
    case Sum(l, r) => K.Add(Value(K, env, l), Value(K, env, r))
    case Product(l, r) => K.Mul(Value(K, env, l), Value(K, env, r))
    case ScaledSum(x, a, b) => K.Add(K.Mul(Value(K, env, a), Value(K, env, x)), Value(K, env, b))
    case Challenge(id, pow, scalar, shift) => K.Add(K.Mul(scalar, K.Pow(env.challenge(id), pow)), shift)
  }

  function Max(a: nat, b: nat): nat { if a >= b then a else b }

  function Degree<T>(e: Expr<T>): nat {
    match e
    case WitIn(_) | Fixed(_) | StructuralWitIn(_, _, _, _) => 1
    case Instance(_) | Constant(_) | Challenge(_, _, _, _) => 0
    case Sum(l, r) => Max(Degree(l), Degree(r))
    case Product(l, r) => Degree(l) + Degree(r)
    case ScaledSum(x, _, _) => Degree(x)
  }

  function Size<T>(e: Expr<T>): nat {
    match e
    case Sum(l, r) => 1 + Size(l) + Size(r)
    case Product(l, r) => 1 + Size(l) + Size(r)
    case ScaledSum(x, a, b) => 1 + Size(x) + Size(a) + Size(b)
    case _ => 1
  }

  // ---------- the operators, arm by arm ----------

  function NegExpr<T>(K: Field<T>, e: Expr<T>): Expr<T> {
    match e
    case WitIn(_) | Fixed(_) | StructuralWitIn(_, _, _, _) | Instance(_) => ScaledSum(e, Constant(K.Neg(K.one)),
        Constant(K.zero))
    case Constant(c) => Constant(K.Neg(c))
    case Sum(l, r) => Sum(NegExpr(K, l), NegExpr(K, r))
    case Product(l, r) => Product(NegExpr(K, l), r)
    case ScaledSum(x, a, b) => ScaledSum(x, NegExpr(K, a), NegExpr(K, b))
    case Challenge(id, pow, scalar, shift) => Challenge(id, pow, K.Neg(scalar), K.Neg(shift))
  }

  predicate IsColumn<T>(e: Expr<T>) { e.WitIn? || e.Fixed? }

  predicate IsScalar<T>(e: Expr<T>) { e.Constant? || e.Challenge? }

  function AddExpr<T>(K: Field<T>, e: Expr<T>, f: Expr<T>): Expr<T>
    decreases Size(e) + Size(f)
  {
    if (IsColumn(e) || e.Instance?) && IsScalar(f) then ScaledSum(e, Constant(K.one), f)
    else if IsScalar(e) && (IsColumn(f) || f.Instance?) then ScaledSum(f, Constant(K.one), e)
    else if e.Constant? && f.Challenge? then Challenge(f.id, f.pow, f.scalar, K.Add(f.shift, e.c))
    else if e.Challenge? && f.Constant? then Challenge(e.id, e.pow, e.scalar, K.Add(e.shift, f.c))
    else if e.Challenge? && f.Challenge? && e.id == f.id && e.pow == f.pow then
      Challenge(e.id, e.pow, K.Add(e.scalar, f.scalar), K.Add(e.shift, f.shift))
    else if e.Constant? && f.Constant? then Constant(K.Add(e.c, f.c))
    else if e.Constant? && f.ScaledSum? then ScaledSum(f.x, f.a, AddExpr(K, f.b, e))
    else if e.ScaledSum? && f.Constant? then ScaledSum(e.x, e.a, AddExpr(K, e.b, f))
    else Sum(e, f)
  }

  /** The product of two powers of the same challenge, each scaled and shifted. */
  function MulChallenges<T(==)>(K: Field<T>, e: Expr<T>, f: Expr<T>): Expr<T>
    requires e.Challenge? && f.Challenge?
  {
    var first := Challenge(e.id, e.pow + f.pow, K.Mul(e.scalar, f.scalar), K.Mul(e.shift, f.shift));
    var second :=
      if e.scalar != K.zero && f.shift != K.zero
      then Sum(first, Challenge(e.id, e.pow, K.Mul(f.shift, e.scalar), K.zero)) else first;
    if f.scalar != K.zero && e.shift != K.zero
    then Sum(second, Challenge(e.id, f.pow, K.Mul(e.shift, f.scalar), K.zero)) else second
  }

  function MulExpr<T(==)>(K: Field<T>, e: Expr<T>, f: Expr<T>): Expr<T>
    decreases Size(e) + Size(f)
  {
    if (IsScalar(e) || e.Instance?) && IsColumn(f) then ScaledSum(f, e, Constant(K.zero))
    else if IsColumn(e) && (IsScalar(f) || f.Instance?) then ScaledSum(e, f, Constant(K.zero))
    else if e.Constant? && f.Challenge? then Challenge(f.id, f.pow, K.Mul(f.scalar, e.c), K.Mul(f.shift, e.c))
    else if e.Challenge? && f.Constant? then Challenge(e.id, e.pow, K.Mul(e.scalar, f.c), K.Mul(e.shift, f.c))
    else if e.Challenge? && f.Challenge? then (if e.id == f.id then MulChallenges(K, e, f) else Product(e, f))
    else if e.Constant? && f.Constant? then Constant(K.Mul(e.c, f.c))
    else if e.ScaledSum? && IsScalar(f) then ScaledSum(e.x, MulExpr(K, e.a, f), MulExpr(K, e.b, f))
    else if IsScalar(e) && f.ScaledSum? then ScaledSum(f.x, MulExpr(K, f.a, e), MulExpr(K, f.b, e))
    else Product(e, f)
  }

  // ---------- the operators keep the value and the degree ----------

  lemma {:induction false} NegValue<T(!new)>(K: Field<T>, env: Assignment<T>, e: Expr<T>)
    requires Lawful(K)
    ensures Value(K, env, NegExpr(K, e)) == K.Neg(Value(K, env, e)) && Degree(NegExpr(K, e)) == Degree(e)
  {
    match e
    case WitIn(_) | Fixed(_) | StructuralWitIn(_, _, _, _) | Instance(_) =>
      var v := Value(K, env, e);
      NegMul(K, K.one, v);
      MulOne(K, v);
      AddZero(K, K.Neg(v));
    case Constant(_) =>
    case Sum(l, r) =>
      NegValue(K, env, l);
      NegValue(K, env, r);
      NegAdd(K, Value(K, env, l), Value(K, env, r));
    case Product(l, r) =>
      NegValue(K, env, l);
      NegMul(K, Value(K, env, l), Value(K, env, r));
    case ScaledSum(x, a, b) =>
      NegValue(K, env, a);
      NegValue(K, env, b);
      NegMul(K, Value(K, env, a), Value(K, env, x));
      NegAdd(K, K.Mul(Value(K, env, a), Value(K, env, x)), Value(K, env, b));
    case Challenge(id, pow, scalar, shift) =>
      NegMul(K, scalar, K.Pow(env.challenge(id), pow));
      NegAdd(K, K.Mul(scalar, K.Pow(env.challenge(id), pow)), shift);
  }

  lemma {:induction false} AddValue<T(!new)>(K: Field<T>, env: Assignment<T>, e: Expr<T>, f: Expr<T>)
    requires Lawful(K)
    ensures Value(K, env, AddExpr(K, e, f)) == K.Add(Value(K, env, e), Value(K, env, f))
    ensures Degree(AddExpr(K, e, f)) == Max(Degree(e), Degree(f))
    decreases Size(e) + Size(f)
  {
    var u, v := Value(K, env, e), Value(K, env, f);
    AddComm(K, u, v);
    MulOne(K, u);
    MulOne(K, v);
    if e.Constant? && f.Challenge? {
      AddAssoc(K, K.Mul(f.scalar, K.Pow(env.challenge(f.id), f.pow)), f.shift, e.c);
    } else if e.Challenge? && f.Constant? {
      AddAssoc(K, K.Mul(e.scalar, K.Pow(env.challenge(e.id), e.pow)), e.shift, f.c);
    } else if e.Challenge? && f.Challenge? && e.id == f.id && e.pow == f.pow {
      var p := K.Pow(env.challenge(e.id), e.pow);
      Distrib(K, p, e.scalar, f.scalar);
      AddSwap(K, K.Mul(e.scalar, p), K.Mul(f.scalar, p), e.shift, f.shift);
    } else if e.Constant? && f.ScaledSum? {
      AddValue(K, env, f.b, e);
      AddAssoc(K, K.Mul(Value(K, env, f.a), Value(K, env, f.x)), Value(K, env, f.b), u);
    } else if e.ScaledSum? && f.Constant? {
      AddValue(K, env, e.b, f);
      AddAssoc(K, K.Mul(Value(K, env, e.a), Value(K, env, e.x)), Value(K, env, e.b), v);
    }
  }

  lemma ProductOfShifted<T(!new)>(K: Field<T>, s1: T, p1: T, o1: T, s2: T, p2: T, o2: T)
    requires Lawful(K)
    ensures K.Mul(K.Add(K.Mul(s1, p1), o1), K.Add(K.Mul(s2, p2), o2))
         == K.Add(K.Add(K.Add(K.Mul(K.Mul(s1, s2), K.Mul(p1, p2)), K.Mul(o1, o2)), K.Mul(K.Mul(o2, s1), p1)),
                  K.Mul(K.Mul(o1, s2), p2))
  {
    var a, b := K.Mul(s1, p1), K.Mul(s2, p2);
    Distrib(K, K.Add(a, o1), b, o2);
    Distrib(K, b, a, o1);
    Distrib(K, o2, a, o1);
    MulSwap(K, s1, p1, s2, p2);
    MulComm(K, o1, b);
    MulComm(K, b, o1);
    MulAssoc(K, o1, s2, p2);
    MulComm(K, a, o2);
    MulAssoc(K, o2, s1, p1);
    FourTerms(K, K.Mul(a, b), K.Mul(o1, b), K.Mul(a, o2), K.Mul(o1, o2));
  }

  lemma FourTerms<T(!new)>(K: Field<T>, ab: T, ob: T, ao: T, oo: T)
    requires Lawful(K)
    ensures K.Add(K.Add(ab, ob), K.Add(ao, oo)) == K.Add(K.Add(K.Add(ab, oo), ao), ob)
  {
    AddAssoc(K, ab, ob, K.Add(ao, oo));
    AddComm(K, ob, K.Add(ao, oo));
    AddComm(K, ao, oo);
    AddAssoc(K, ab, K.Add(oo, ao), ob);
    AddAssoc(K, ab, oo, ao);
  }

  lemma MulChallengesValue<T(!new)>(K: Field<T>, env: Assignment<T>, e: Expr<T>, f: Expr<T>)
    requires Lawful(K) && e.Challenge? && f.Challenge? && e.id == f.id
    ensures Value(K, env, MulChallenges(K, e, f)) == K.Mul(Value(K, env, e), Value(K, env, f))
  {
    hide Field<T>.Pow;
    var c := env.challenge(e.id);
    var p1, p2 := K.Pow(c, e.pow), K.Pow(c, f.pow);
    PowAdd(K, c, e.pow, f.pow);
    ProductOfShifted(K, e.scalar, p1, e.shift, f.scalar, p2, f.shift);
    var first := K.Add(K.Mul(K.Mul(e.scalar, f.scalar), K.Mul(p1, p2)), K.Mul(e.shift, f.shift));
    var cross1, cross2 := K.Mul(K.Mul(f.shift, e.scalar), p1), K.Mul(K.Mul(e.shift, f.scalar), p2);
    AddZero(K, cross1);
    AddZero(K, cross2);
    if e.scalar == K.zero || f.shift == K.zero {
      MulZero(K, f.shift);
      MulZero(K, e.scalar);
      MulZero(K, p1);
      AddZero(K, first);
    }
    if f.scalar == K.zero || e.shift == K.zero {
      MulZero(K, e.shift);
      MulZero(K, f.scalar);
      MulZero(K, p2);
      AddZero(K, K.Add(first, cross1));
    }
    var firstExpr := Challenge(e.id, e.pow + f.pow, K.Mul(e.scalar, f.scalar), K.Mul(e.shift, f.shift));
    var secondExpr :=
      if e.scalar != K.zero && f.shift != K.zero
      then Sum(firstExpr, Challenge(e.id, e.pow, K.Mul(f.shift, e.scalar), K.zero)) else firstExpr;
    assert Value(K, env, firstExpr) == first;
    assert Value(K, env, secondExpr) == K.Add(first, cross1);
  }

  lemma ScaledTimes<T(!new)>(K: Field<T>, x: T, a: T, b: T, c: T)
    requires Lawful(K)
    ensures K.Mul(K.Add(K.Mul(a, x), b), c) == K.Add(K.Mul(K.Mul(a, c), x), K.Mul(b, c))
  {
    Distrib(K, c, K.Mul(a, x), b);
    MulAssoc(K, a, x, c);
    MulComm(K, x, c);
    MulAssoc(K, a, c, x);
  }

  lemma {:induction false} MulValue<T(!new)>(K: Field<T>, env: Assignment<T>, e: Expr<T>, f: Expr<T>)
    requires Lawful(K)
    ensures Value(K, env, MulExpr(K, e, f)) == K.Mul(Value(K, env, e), Value(K, env, f))
    decreases Size(e) + Size(f)
  {
    hide Field<T>.Pow, Degree;
    var u, v := Value(K, env, e), Value(K, env, f);
    MulComm(K, u, v);
    AddZero(K, K.Mul(u, v));
    if e.Constant? && f.Challenge? {
      ScaledTimes(K, K.Pow(env.challenge(f.id), f.pow), f.scalar, f.shift, e.c);
    } else if e.Challenge? && f.Constant? {
      ScaledTimes(K, K.Pow(env.challenge(e.id), e.pow), e.scalar, e.shift, f.c);
    } else if e.Challenge? && f.Challenge? && e.id == f.id {
      MulChallengesValue(K, env, e, f);
    } else if e.ScaledSum? && IsScalar(f) {
      MulValue(K, env, e.a, f);
      MulValue(K, env, e.b, f);
      ScaledTimes(K, Value(K, env, e.x), Value(K, env, e.a), Value(K, env, e.b), v);
      assert MulExpr(K, e, f) == ScaledSum(e.x, MulExpr(K, e.a, f), MulExpr(K, e.b, f));
    } else if IsScalar(e) && f.ScaledSum? {
      MulValue(K, env, f.a, e);
      MulValue(K, env, f.b, e);
      ScaledTimes(K, Value(K, env, f.x), Value(K, env, f.a), Value(K, env, f.b), u);
    }
  }

  lemma {:induction false} MulDegree<T>(K: Field<T>, e: Expr<T>, f: Expr<T>)
    ensures Degree(MulExpr(K, e, f)) == Degree(e) + Degree(f)
    decreases Size(e) + Size(f)
  {
    if e.Challenge? && f.Challenge? && e.id == f.id {
      var firstExpr := Challenge(e.id, e.pow + f.pow, K.Mul(e.scalar, f.scalar), K.Mul(e.shift, f.shift));
      var secondExpr :=
        if e.scalar != K.zero && f.shift != K.zero
        then Sum(firstExpr, Challenge(e.id, e.pow, K.Mul(f.shift, e.scalar), K.zero)) else firstExpr;
      assert Degree(firstExpr) == 0;
      assert Degree(secondExpr) == 0;
    }
  }

  // ---------- the combination of a record ----------

  /** Power i of the sequence that starts at one and multiplies by the base. */
  function PowerAt<T(==)>(K: Field<T>, base: Expr<T>, i: nat): Expr<T> {
    if i == 0 then Constant(K.one) else MulExpr(K, PowerAt(K, base, i - 1), base)
  }

  /** The sum of record * power over the first n records, from the zero expression on. */
  function Combined<T(==)>(K: Field<T>, records: seq<Expr<T>>, beta: Expr<T>, n: nat): Expr<T>
    requires n <= |records|
  {
    if n == 0 then Constant(K.zero)
    else AddExpr(K, Combined(K, records, beta, n - 1), MulExpr(K, records[n - 1], PowerAt(K, beta, n - 1)))
  }

  /** `rlc_chip_record`: records must not be empty, and beta must be a constant or a challenge. */
  function RlcChipRecord<T(==)>(K: Field<T>, records: seq<Expr<T>>, alpha: Expr<T>, beta: Expr<T>): Expr<T>
    requires records != [] && IsScalar(beta)
  {
    AddExpr(K, Combined(K, records, beta, |records|), alpha)
  }

  lemma {:induction false} PowerValue<T(!new)>(K: Field<T>, env: Assignment<T>, base: Expr<T>, i: nat)
    requires Lawful(K) && Degree(base) == 0
    ensures Value(K, env, PowerAt(K, base, i)) == K.Pow(Value(K, env, base), i) && Degree(PowerAt(K, base, i)) == 0
  {
    hide MulExpr;
    if i > 0 {
      PowerValue(K, env, base, i - 1);
      MulValue(K, env, PowerAt(K, base, i - 1), base);
      MulDegree(K, PowerAt(K, base, i - 1), base);
      MulComm(K, K.Pow(Value(K, env, base), i - 1), Value(K, env, base));
    }
  }

  /** beta^i * record_i for every record. */
  function Weighted<T>(K: Field<T>, env: Assignment<T>, records: seq<Expr<T>>, beta: T): (s: seq<T>)
    ensures |s| == |records| && forall i :: 0 <= i < |s| ==> s[i] == K.Mul(K.Pow(beta, i), Value(K, env, records[i]))
  {
    seq(|records|, i requires 0 <= i < |records| => K.Mul(K.Pow(beta, i), Value(K, env, records[i])))
  }

  function MaxDegree<T>(records: seq<Expr<T>>, n: nat): nat
    requires n <= |records|
  {
    if n == 0 then 0 else Max(MaxDegree(records, n - 1), Degree(records[n - 1]))
  }

  lemma {:induction false} CombinedValue<T(!new)>(K: Field<T>, env: Assignment<T>, records: seq<Expr<T>>,
                                                  beta: Expr<T>, n: nat)
    requires Lawful(K) && n <= |records| && IsScalar(beta)
    ensures Value(K, env, Combined(K, records, beta, n)) == K.Sum(Weighted(K, env, records, Value(K, env, beta))[..n])
    ensures Degree(Combined(K, records, beta, n)) == MaxDegree(records, n)
  {
    hide AddExpr, MulExpr, Field<T>.Pow, PowerAt;
    if n > 0 {
      var s, p := Weighted(K, env, records, Value(K, env, beta)), PowerAt(K, beta, n - 1);
      CombinedValue(K, env, records, beta, n - 1);
      PowerValue(K, env, beta, n - 1);
      MulValue(K, env, records[n - 1], p);
      MulDegree(K, records[n - 1], p);
      AddValue(K, env, Combined(K, records, beta, n - 1), MulExpr(K, records[n - 1], p));
      MulComm(K, Value(K, env, records[n - 1]), Value(K, env, p));
      SumPrefix(K, s, n - 1);
    }
  }

  /** The combination of a record evaluates to alpha plus the sum of beta^i * record_i, with the largest degree of the
      records: degree one for records of degree at most one with one of degree one. */
  lemma RlcChipRecordValue<T(!new)>(K: Field<T>, env: Assignment<T>, records: seq<Expr<T>>, alpha: Expr<T>,
                                    beta: Expr<T>)
    requires Lawful(K) && records != [] && IsScalar(beta)
    ensures Value(K, env, RlcChipRecord(K, records, alpha, beta))
         == K.Add(Value(K, env, alpha), K.Sum(Weighted(K, env, records, Value(K, env, beta))))
    ensures Degree(RlcChipRecord(K, records, alpha, beta)) == Max(MaxDegree(records, |records|), Degree(alpha))
  {
    hide AddExpr, Weighted, Combined;
    var s, c := Weighted(K, env, records, Value(K, env, beta)), Combined(K, records, beta, |records|);
    CombinedValue(K, env, records, beta, |records|);
    AddValue(K, env, c, alpha);
    assert s[..|records|] == s;
    AddComm(K, Value(K, env, c), Value(K, env, alpha));
  }
}

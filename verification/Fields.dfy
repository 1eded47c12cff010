/** Arithmetic over an arbitrary field.  The base field and its extension are one type `T`;
    every theorem of the project that needs field arithmetic is stated for every lawful field. */
module Fields {

  datatype Field<!T(==)> = Field(zero: T, one: T, add: (T, T) -> T, mul: (T, T) -> T, neg: T -> T, inv: T -> T)
  {
    function Add(a: T, b: T): T { add(a, b) }

    function Mul(a: T, b: T): T { mul(a, b) }

    function Neg(a: T): T { neg(a) }

    function Inv(a: T): T { inv(a) }

    function Sub(a: T, b: T): T { Add(a, Neg(b)) }

    function Div(a: T, b: T): T { Mul(a, Inv(b)) }

    /** The value on the line through (0, a) and (1, b) at t. */
    function Line(a: T, b: T, t: T): T { Add(a, Mul(t, Sub(b, a))) }

    /** The image of a natural number in the field. */
    function Num(n: nat): T {
      if n == 0 then zero else Add(Num(n - 1), one)
    }

    function Pow(a: T, n: nat): T {
      if n == 0 then one else Mul(a, Pow(a, n - 1))
    }

    function Sum(s: seq<T>): T {
      if s == [] then zero else Add(s[0], Sum(s[1..]))
    }

    function Product(s: seq<T>): T {
      if s == [] then one else Mul(s[0], Product(s[1..]))
    }
  }

  /** Names the operands of a law, so that a law is used only where a proof asks for it. */
  ghost predicate Cue<T>(a: T, b: T, c: T) { true }

  ghost predicate Lawful<T(!new)>(K: Field<T>) {
    && K.one != K.zero
    && (forall a: T, b: T, c: T {:trigger Cue(a, b, c)} :: Cue(a, b, c) ==>
          && K.Add(a, b) == K.Add(b, a)
          && K.Add(K.Add(a, b), c) == K.Add(a, K.Add(b, c))
          && K.Add(a, K.zero) == a
          && K.Add(a, K.Neg(a)) == K.zero
          && K.Mul(a, b) == K.Mul(b, a)
          && K.Mul(K.Mul(a, b), c) == K.Mul(a, K.Mul(b, c))
          && K.Mul(a, K.one) == a
          && K.Mul(a, K.Add(b, c)) == K.Add(K.Mul(a, b), K.Mul(a, c))
          && (a != K.zero ==> K.Mul(a, K.Inv(a)) == K.one))
  }

  // ---------- the laws, one instance at a time ----------

  lemma AddComm<T(!new)>(K: Field<T>, a: T, b: T)
    requires Lawful(K)
    ensures K.Add(a, b) == K.Add(b, a)
  {
    assert Cue(a, b, b);
  }

  lemma AddAssoc<T(!new)>(K: Field<T>, a: T, b: T, c: T)
    requires Lawful(K)
    ensures K.Add(K.Add(a, b), c) == K.Add(a, K.Add(b, c))
  {
    assert Cue(a, b, c);
  }

  lemma AddZero<T(!new)>(K: Field<T>, a: T)
    requires Lawful(K)
    ensures K.Add(a, K.zero) == a && K.Add(K.zero, a) == a
  {
    assert Cue(a, K.zero, a);
  }

  lemma MulComm<T(!new)>(K: Field<T>, a: T, b: T)
    requires Lawful(K)
    ensures K.Mul(a, b) == K.Mul(b, a)
  {
    assert Cue(a, b, b);
  }

  lemma MulAssoc<T(!new)>(K: Field<T>, a: T, b: T, c: T)
    requires Lawful(K)
    ensures K.Mul(K.Mul(a, b), c) == K.Mul(a, K.Mul(b, c))
  {
    assert Cue(a, b, c);
  }

  lemma MulOne<T(!new)>(K: Field<T>, a: T)
    requires Lawful(K)
    ensures K.Mul(a, K.one) == a && K.Mul(K.one, a) == a
  {
    assert Cue(a, K.one, a);
  }

  lemma Distrib<T(!new)>(K: Field<T>, a: T, b: T, c: T)
    requires Lawful(K)
    ensures K.Mul(a, K.Add(b, c)) == K.Add(K.Mul(a, b), K.Mul(a, c))
    ensures K.Mul(K.Add(b, c), a) == K.Add(K.Mul(b, a), K.Mul(c, a))
  {
    assert Cue(a, b, c);
    MulComm(K, a, K.Add(b, c));
    MulComm(K, a, b);
    MulComm(K, a, c);
  }

  lemma SubSelf<T(!new)>(K: Field<T>, a: T)
    requires Lawful(K)
    ensures K.Sub(a, a) == K.zero
  {
    assert Cue(a, a, a);
  }

  lemma MulInv<T(!new)>(K: Field<T>, a: T)
    requires Lawful(K) && a != K.zero
    ensures K.Mul(a, K.Inv(a)) == K.one && K.Mul(K.Inv(a), a) == K.one
  {
    assert Cue(a, K.Inv(a), a);
  }

  // ---------- the laws for every operand, for short rearrangements only ----------

  lemma AddCommAll<T(!new)>(K: Field<T>)
    requires Lawful(K)
    ensures forall a: T, b: T {:trigger K.Add(a, b)} :: K.Add(a, b) == K.Add(b, a)
  {
    forall a: T, b: T {:trigger K.Add(a, b)}
      ensures K.Add(a, b) == K.Add(b, a)
    {
      AddComm(K, a, b);
    }
  }

  lemma AddAssocAll<T(!new)>(K: Field<T>)
    requires Lawful(K)
    ensures forall a: T, b: T, c: T {:trigger K.Add(K.Add(a, b), c)} {:trigger K.Add(a, K.Add(b, c))} ::
              K.Add(K.Add(a, b), c) == K.Add(a, K.Add(b, c))
  {
    forall a: T, b: T, c: T {:trigger K.Add(K.Add(a, b), c)} {:trigger K.Add(a, K.Add(b, c))}
      ensures K.Add(K.Add(a, b), c) == K.Add(a, K.Add(b, c))
    {
      AddAssoc(K, a, b, c);
    }
  }

  lemma MulCommAll<T(!new)>(K: Field<T>)
    requires Lawful(K)
    ensures forall a: T, b: T {:trigger K.Mul(a, b)} :: K.Mul(a, b) == K.Mul(b, a)
  {
    forall a: T, b: T {:trigger K.Mul(a, b)}
      ensures K.Mul(a, b) == K.Mul(b, a)
    {
      MulComm(K, a, b);
    }
  }

  lemma MulAssocAll<T(!new)>(K: Field<T>)
    requires Lawful(K)
    ensures forall a: T, b: T, c: T {:trigger K.Mul(K.Mul(a, b), c)} {:trigger K.Mul(a, K.Mul(b, c))} ::
              K.Mul(K.Mul(a, b), c) == K.Mul(a, K.Mul(b, c))
  {
    forall a: T, b: T, c: T {:trigger K.Mul(K.Mul(a, b), c)} {:trigger K.Mul(a, K.Mul(b, c))}
      ensures K.Mul(K.Mul(a, b), c) == K.Mul(a, K.Mul(b, c))
    {
      MulAssoc(K, a, b, c);
    }
  }

  // ---------- consequences ----------

  lemma AddSwap<T(!new)>(K: Field<T>, a: T, b: T, c: T, d: T)
    requires Lawful(K)
    ensures K.Add(K.Add(a, b), K.Add(c, d)) == K.Add(K.Add(a, c), K.Add(b, d))
  {
    AddCommAll(K);
    AddAssocAll(K);
  }

  lemma MulSwap<T(!new)>(K: Field<T>, a: T, b: T, c: T, d: T)
    requires Lawful(K)
    ensures K.Mul(K.Mul(a, b), K.Mul(c, d)) == K.Mul(K.Mul(a, c), K.Mul(b, d))
  {
    MulCommAll(K);
    MulAssocAll(K);
  }

  lemma AddCancel<T(!new)>(K: Field<T>, a: T, b: T, c: T)
    requires Lawful(K) && K.Add(a, b) == K.Add(a, c)
    ensures b == c
  {
    forall x: T ensures K.Add(K.Neg(a), K.Add(a, x)) == x {
      AddAssoc(K, K.Neg(a), a, x);
      AddComm(K, K.Neg(a), a);
      SubSelf(K, a);
      AddZero(K, x);
    }
  }

  lemma MulZero<T(!new)>(K: Field<T>, a: T)
    requires Lawful(K)
    ensures K.Mul(a, K.zero) == K.zero && K.Mul(K.zero, a) == K.zero
  {
    AddZero(K, K.zero);
    Distrib(K, a, K.zero, K.zero);
    AddZero(K, K.Mul(a, K.zero));
    AddCancel(K, K.Mul(a, K.zero), K.Mul(a, K.zero), K.zero);
    MulComm(K, a, K.zero);
  }

  /** Whatever adds with a to zero is the negation of a. */
  lemma NegUnique<T(!new)>(K: Field<T>, a: T, b: T)
    requires Lawful(K) && K.Add(a, b) == K.zero
    ensures b == K.Neg(a)
  {
    SubSelf(K, a);
    AddCancel(K, a, b, K.Neg(a));
  }

  lemma NegMul<T(!new)>(K: Field<T>, a: T, b: T)
    requires Lawful(K)
    ensures K.Mul(K.Neg(a), b) == K.Neg(K.Mul(a, b))
    ensures K.Mul(b, K.Neg(a)) == K.Neg(K.Mul(b, a))
  {
    Distrib(K, b, a, K.Neg(a));
    SubSelf(K, a);
    MulZero(K, b);
    NegUnique(K, K.Mul(a, b), K.Mul(K.Neg(a), b));
    NegUnique(K, K.Mul(b, a), K.Mul(b, K.Neg(a)));
  }

  lemma NegAdd<T(!new)>(K: Field<T>, a: T, b: T)
    requires Lawful(K)
    ensures K.Neg(K.Add(a, b)) == K.Add(K.Neg(a), K.Neg(b))
  {
    AddSwap(K, a, b, K.Neg(a), K.Neg(b));
    SubSelf(K, a);
    SubSelf(K, b);
    AddZero(K, K.zero);
    NegUnique(K, K.Add(a, b), K.Add(K.Neg(a), K.Neg(b)));
  }

  lemma NegNeg<T(!new)>(K: Field<T>, a: T)
    requires Lawful(K)
    ensures K.Neg(K.Neg(a)) == a && K.Neg(K.zero) == K.zero
  {
    SubSelf(K, a);
    AddComm(K, a, K.Neg(a));
    NegUnique(K, K.Neg(a), a);
    AddZero(K, K.zero);
    NegUnique(K, K.zero, K.zero);
  }

  lemma MulSub<T(!new)>(K: Field<T>, a: T, b: T, c: T)
    requires Lawful(K)
    ensures K.Mul(a, K.Sub(b, c)) == K.Sub(K.Mul(a, b), K.Mul(a, c))
    ensures K.Mul(K.Sub(b, c), a) == K.Sub(K.Mul(b, a), K.Mul(c, a))
  {
    Distrib(K, a, b, K.Neg(c));
    NegMul(K, c, a);
  }

  lemma AddSub<T(!new)>(K: Field<T>, a: T, b: T)
    requires Lawful(K)
    ensures K.Add(a, K.Sub(b, a)) == b && K.Add(K.Sub(b, a), a) == b && K.Sub(K.Add(b, a), a) == b
  {
    SubSelf(K, a);
    AddZero(K, b);
    AddCommAll(K);
    AddAssocAll(K);
  }

  lemma NegSub<T(!new)>(K: Field<T>, a: T, b: T)
    requires Lawful(K)
    ensures K.Neg(K.Sub(a, b)) == K.Sub(b, a)
  {
    NegAdd(K, a, K.Neg(b));
    NegNeg(K, b);
    AddComm(K, K.Neg(a), b);
  }

  lemma SubZeroEqual<T(!new)>(K: Field<T>, a: T, b: T)
    requires Lawful(K) && K.Sub(a, b) == K.zero
    ensures a == b
  {
    AddSub(K, b, a);
    AddZero(K, b);
  }

  lemma SubAdd<T(!new)>(K: Field<T>, a: T, b: T, c: T, d: T)
    requires Lawful(K)
    ensures K.Sub(K.Add(a, b), K.Add(c, d)) == K.Add(K.Sub(a, c), K.Sub(b, d))
  {
    NegAdd(K, c, d);
    AddSwap(K, a, b, K.Neg(c), K.Neg(d));
  }

  lemma NoZeroDivisors<T(!new)>(K: Field<T>, a: T, b: T)
    requires Lawful(K) && K.Mul(a, b) == K.zero
    ensures a == K.zero || b == K.zero
  {
    if a != K.zero {
      MulInv(K, a);
      MulAssoc(K, K.Inv(a), a, b);
      MulOne(K, b);
      MulZero(K, K.Inv(a));
    }
  }

  // ---------- lines ----------

  lemma LineEnds<T(!new)>(K: Field<T>, a: T, b: T)
    requires Lawful(K)
    ensures K.Line(a, b, K.zero) == a && K.Line(a, b, K.one) == b
  {
    MulZero(K, K.Sub(b, a));
    MulOne(K, K.Sub(b, a));
    AddZero(K, a);
    AddSub(K, a, b);
  }

  lemma LineFlat<T(!new)>(K: Field<T>, a: T, t: T)
    requires Lawful(K)
    ensures K.Line(a, a, t) == a
  {
    SubSelf(K, a);
    MulZero(K, t);
    AddZero(K, a);
  }

  /** A line is the mixture of its ends. */
  lemma LineMix<T(!new)>(K: Field<T>, a: T, b: T, t: T)
    requires Lawful(K)
    ensures K.Line(a, b, t) == K.Add(K.Mul(K.Sub(K.one, t), a), K.Mul(t, b))
  {
    MulSub(K, t, b, a);
    MulSub(K, a, K.one, t);
    MulOne(K, a);
    NegMul(K, t, a);
    AddComm(K, K.Mul(t, b), K.Neg(K.Mul(t, a)));
    AddAssoc(K, a, K.Neg(K.Mul(t, a)), K.Mul(t, b));
  }

  // ---------- numerals and powers ----------

  lemma NumOne<T(!new)>(K: Field<T>)
    requires Lawful(K)
    ensures K.Num(0) == K.zero && K.Num(1) == K.one
  {
    AddZero(K, K.one);
  }

  lemma {:induction false} NumAdd<T(!new)>(K: Field<T>, m: nat, n: nat)
    requires Lawful(K)
    ensures K.Num(m + n) == K.Add(K.Num(m), K.Num(n))
  {
    if n == 0 {
      AddZero(K, K.Num(m));
    } else {
      NumAdd(K, m, n - 1);
      AddAssoc(K, K.Num(m), K.Num(n - 1), K.one);
    }
  }

  lemma {:induction false} NumMul<T(!new)>(K: Field<T>, m: nat, n: nat)
    requires Lawful(K)
    ensures K.Num(m * n) == K.Mul(K.Num(m), K.Num(n))
  {
    if n == 0 {
      MulZero(K, K.Num(m));
    } else {
      NumMul(K, m, n - 1);
      assert m * n == m * (n - 1) + m;
      NumAdd(K, m * (n - 1), m);
      Distrib(K, K.Num(m), K.Num(n - 1), K.one);
      MulOne(K, K.Num(m));
    }
  }

  /** The image of an integer. */
  function NumZ<T>(K: Field<T>, n: int): T {
    if n >= 0 then K.Num(n) else K.Neg(K.Num(-n))
  }

  lemma NumDifference<T(!new)>(K: Field<T>, n: nat, d: nat)
    requires Lawful(K)
    ensures K.Sub(K.Num(n + d), K.Num(n)) == K.Num(d)
    ensures K.Sub(K.Num(n), K.Num(n + d)) == K.Neg(K.Num(d))
  {
    NumAdd(K, n, d);
    AddComm(K, K.Num(n), K.Num(d));
    AddSub(K, K.Num(n), K.Num(d));
    NegSub(K, K.Num(n + d), K.Num(n));
  }

  lemma {:induction false} NumSub<T(!new)>(K: Field<T>, m: nat, n: nat)
    requires Lawful(K)
    ensures K.Sub(K.Num(m), K.Num(n)) == NumZ(K, m - n)
  {
    if n <= m {
      NumDifference(K, n, m - n);
    } else {
      NumDifference(K, m, n - m);
    }
  }

  lemma {:induction false} NumZMul<T(!new)>(K: Field<T>, m: int, n: int)
    requires Lawful(K)
    ensures NumZ(K, m * n) == K.Mul(NumZ(K, m), NumZ(K, n))
  {
    var a: nat, b: nat := if m >= 0 then m else -m, if n >= 0 then n else -n;
    hide Field<T>.Num;
    NumMul(K, a, b);
    NumOne(K);
    NegMul(K, K.Num(a), K.Num(b));
    NegMul(K, K.Num(b), K.Num(a));
    NegMul(K, K.Num(a), K.Neg(K.Num(b)));
    NegNeg(K, K.Mul(K.Num(a), K.Num(b)));
    if m >= 0 && n >= 0 {
      assert m * n == a * b;
    } else if m < 0 && n < 0 {
      assert m * n == a * b;
    } else {
      assert m * n == -(a * b);
      assert a * b >= 0;
    }
  }

  lemma {:induction false} PowAdd<T(!new)>(K: Field<T>, a: T, m: nat, n: nat)
    requires Lawful(K)
    ensures K.Pow(a, m + n) == K.Mul(K.Pow(a, m), K.Pow(a, n))
  {
    if m == 0 {
      MulOne(K, K.Pow(a, n));
    } else {
      PowAdd(K, a, m - 1, n);
      MulAssoc(K, a, K.Pow(a, m - 1), K.Pow(a, n));
    }
  }
}

/** Interpolation through the nodes 0, 1, ..., n-1: the reference polynomial, its uniqueness,
    the precomputed extrapolation table and the unrolled evaluation the verifier uses. */
module Interpolation {
  import opened Fields
  import opened Sums
  import opened Polynomials

  /** None of the numerals 1..d is zero, so the nodes 0..d are distinct. */
  ghost predicate CharacteristicAbove<T>(K: Field<T>, d: nat) {
    forall k: nat :: 1 <= k <= d ==> NumeralNonZero(K, k)
  }

  ghost predicate NumeralNonZero<T>(K: Field<T>, k: nat) {
    K.Num(k) != K.zero
  }

  lemma {:induction false} NodesDistinct<T(!new)>(K: Field<T>, d: nat, i: nat, j: nat)
    requires Lawful(K) && CharacteristicAbove(K, d) && i <= d && j <= d && i != j
    ensures K.Num(i) != K.Num(j) && K.Sub(K.Num(i), K.Num(j)) != K.zero
  {
    if i < j {
      NumDifference(K, i, j - i);
      assert NumeralNonZero(K, j - i);
      NegNeg(K, K.Num(j - i));
    } else {
      NumDifference(K, j, i - j);
      assert NumeralNonZero(K, i - j);
    }
    SubSelf(K, K.Num(j));
  }

  /** The product of x - i over all nodes i below n. */
  function NodeProduct<T>(K: Field<T>, n: nat, x: T): T {
    if n == 0 then K.one else K.Mul(NodeProduct(K, n - 1, x), K.Sub(x, K.Num(n - 1)))
  }

  /** The same product without node j. */
  function Except<T>(K: Field<T>, n: nat, j: nat, x: T): T {
    if n == 0 then K.one
    else if n - 1 == j then Except(K, n - 1, j, x)
    else K.Mul(Except(K, n - 1, j, x), K.Sub(x, K.Num(n - 1)))
  }

  /** The barycentric weight of node j among n nodes. */
  function Weight<T>(K: Field<T>, n: nat, j: nat): T {
    K.Inv(Except(K, n, j, K.Num(j)))
  }

  function ExceptPoly<T>(K: Field<T>, n: nat, j: nat): (p: seq<T>)
    ensures |p| == if j < n then n else n + 1
  {
    if n == 0 then [K.one]
    else if n - 1 == j then ExceptPoly(K, n - 1, j)
    else MulLinear(K, K.Neg(K.Num(n - 1)), K.one, ExceptPoly(K, n - 1, j))
  }

  function InterpolantUpTo<T>(K: Field<T>, ys: seq<T>, k: nat): (p: seq<T>)
    requires k <= |ys|
    ensures |p| == if k == 0 then 0 else |ys|
  {
    if k == 0 then []
    else PolyAdd(K, InterpolantUpTo(K, ys, k - 1),
                 Scaled(K, K.Mul(Weight(K, |ys|, k - 1), ys[k - 1]), ExceptPoly(K, |ys|, k - 1)))
  }

  /** The polynomial of fewer than |ys| + 1 coefficients through the points (j, ys[j]). */
  function Interpolant<T>(K: Field<T>, ys: seq<T>): (p: seq<T>)
    ensures |p| == |ys|
  {
    InterpolantUpTo(K, ys, |ys|)
  }

  // ---------- the interpolant meets its points, and is the only one that does ----------

  lemma {:induction false} ExceptNonZero<T(!new)>(K: Field<T>, d: nat, n: nat, j: nat)
    requires Lawful(K) && CharacteristicAbove(K, d) && n <= d + 1 && j <= d
    ensures Except(K, n, j, K.Num(j)) != K.zero
  {
    if n > 0 {
      ExceptNonZero(K, d, n - 1, j);
      if n - 1 != j {
        NodesDistinct(K, d, j, n - 1);
        if Except(K, n, j, K.Num(j)) == K.zero {
          NoZeroDivisors(K, Except(K, n - 1, j, K.Num(j)), K.Sub(K.Num(j), K.Num(n - 1)));
        }
      }
    }
  }

  lemma {:induction false} ExceptVanishes<T(!new)>(K: Field<T>, n: nat, j: nat, i: nat)
    requires Lawful(K) && i < n && i != j
    ensures Except(K, n, j, K.Num(i)) == K.zero
  {
    if i == n - 1 {
      SubSelf(K, K.Num(i));
      MulZero(K, Except(K, n - 1, j, K.Num(i)));
    } else {
      ExceptVanishes(K, n - 1, j, i);
      MulZero(K, K.Sub(K.Num(i), K.Num(n - 1)));
    }
  }

  lemma {:induction false} ExceptTimesNode<T(!new)>(K: Field<T>, n: nat, j: nat, x: T)
    requires Lawful(K)
    ensures NodeProduct(K, n, x) == if j < n then K.Mul(Except(K, n, j, x), K.Sub(x, K.Num(j))) else Except(K, n, j, x)
  {
    if n > 0 {
      ExceptTimesNode(K, n - 1, j, x);
      if j < n - 1 {
        var e, a, b := Except(K, n - 1, j, x), K.Sub(x, K.Num(j)), K.Sub(x, K.Num(n - 1));
        MulAssoc(K, e, a, b);
        MulComm(K, a, b);
        MulAssoc(K, e, b, a);
      }
    }
  }

  lemma {:induction false} ExceptPolyEval<T(!new)>(K: Field<T>, n: nat, j: nat, x: T)
    requires Lawful(K)
    ensures Eval(K, ExceptPoly(K, n, j), x) == Except(K, n, j, x)
  {
    if n == 0 {
      MulZero(K, x);
      AddZero(K, K.one);
      assert [K.one][1..] == [];
    } else {
      ExceptPolyEval(K, n - 1, j, x);
      if n - 1 != j {
        EvalMulLinear(K, K.Neg(K.Num(n - 1)), K.one, ExceptPoly(K, n - 1, j), x);
        MulOne(K, x);
        AddComm(K, K.Neg(K.Num(n - 1)), x);
        MulComm(K, K.Sub(x, K.Num(n - 1)), Except(K, n - 1, j, x));
      }
    }
  }

  lemma InterpolantStep<T(!new)>(K: Field<T>, ys: seq<T>, k: nat, x: T)
    requires Lawful(K) && k < |ys|
    ensures Eval(K, InterpolantUpTo(K, ys, k + 1), x)
         == K.Add(Eval(K, InterpolantUpTo(K, ys, k), x),
                  K.Mul(K.Mul(Weight(K, |ys|, k), ys[k]), Except(K, |ys|, k, x)))
  {
    var c := K.Mul(Weight(K, |ys|, k), ys[k]);
    EvalAdd(K, InterpolantUpTo(K, ys, k), Scaled(K, c, ExceptPoly(K, |ys|, k)), x);
    EvalScaled(K, c, ExceptPoly(K, |ys|, k), x);
    ExceptPolyEval(K, |ys|, k, x);
  }

  lemma InterpolantZero<T>(K: Field<T>, ys: seq<T>, x: T)
    ensures Eval(K, InterpolantUpTo(K, ys, 0), x) == K.zero
  {
  }

  /** At a node the share of every other node vanishes. */
  lemma ShareAtNode<T(!new)>(K: Field<T>, ys: seq<T>, j: nat, i: nat)
    requires Lawful(K) && i < |ys| && j < |ys| && CharacteristicAbove(K, |ys| - 1)
    ensures K.Mul(K.Mul(Weight(K, |ys|, j), ys[j]), Except(K, |ys|, j, K.Num(i))) == if i == j then ys[i] else K.zero
  {
    var w, e := Weight(K, |ys|, j), Except(K, |ys|, j, K.Num(i));
    if i == j {
      ExceptNonZero(K, |ys| - 1, |ys|, i);
      MulInv(K, e);
      MulComm(K, w, ys[i]);
      MulAssoc(K, ys[i], w, e);
      MulOne(K, ys[i]);
    } else {
      ExceptVanishes(K, |ys|, j, i);
      MulZero(K, K.Mul(w, ys[j]));
    }
  }

  lemma {:induction false} InterpolantAtNode<T(!new)>(K: Field<T>, ys: seq<T>, k: nat, i: nat)
    requires Lawful(K) && k <= |ys| && i < |ys| && CharacteristicAbove(K, |ys| - 1)
    ensures Eval(K, InterpolantUpTo(K, ys, k), K.Num(i)) == if i < k then ys[i] else K.zero
  {
    hide *;
    InterpolantZero(K, ys, K.Num(i));
    if k > 0 {
      InterpolantAtNode(K, ys, k - 1, i);
      InterpolantStep(K, ys, k - 1, K.Num(i));
      ShareAtNode(K, ys, k - 1, i);
      AddZero(K, ys[i]);
      AddZero(K, K.zero);
    }
  }

  ghost function NodeSet<T>(K: Field<T>, n: nat): set<T> {
    if n == 0 then {} else NodeSet(K, n - 1) + {K.Num(n - 1)}
  }

  lemma {:induction false} NodeSetMember<T(!new)>(K: Field<T>, n: nat, a: T) returns (i: nat)
    requires a in NodeSet(K, n)
    ensures i < n && a == K.Num(i)
  {
    if a == K.Num(n - 1) { i := n - 1; } else { i := NodeSetMember(K, n - 1, a); }
  }

  lemma {:induction false} NodeSetSize<T(!new)>(K: Field<T>, n: nat)
    requires Lawful(K) && (n > 0 ==> CharacteristicAbove(K, n - 1))
    ensures |NodeSet(K, n)| == n
  {
    if n > 0 {
      NodeSetSize(K, n - 1);
      hide Field<T>.Num;
      if K.Num(n - 1) in NodeSet(K, n - 1) {
        var i := NodeSetMember(K, n - 1, K.Num(n - 1));
        NodesDistinct(K, n - 1, i, n - 1);
        assert false;
      }
    }
  }

  ghost predicate PassesThrough<T>(K: Field<T>, p: seq<T>, ys: seq<T>) {
    |p| <= |ys| && forall j {:trigger ys[j]} :: 0 <= j < |ys| ==> Eval(K, p, K.Num(j)) == ys[j]
  }

  /** The interpolant passes through its points, and every polynomial that does so with no more
      coefficients has the same value everywhere. */
  lemma InterpolantUnique<T(!new)>(K: Field<T>, ys: seq<T>, p: seq<T>, x: T)
    requires Lawful(K) && ys != [] && CharacteristicAbove(K, |ys| - 1)
    ensures PassesThrough(K, Interpolant(K, ys), ys)
    ensures PassesThrough(K, p, ys) ==> Eval(K, p, x) == Eval(K, Interpolant(K, ys), x)
  {
    var q := Interpolant(K, ys);
    forall j | 0 <= j < |ys| ensures Eval(K, q, K.Num(j)) == ys[j] { InterpolantAtNode(K, ys, |ys|, j); }
    if PassesThrough(K, p, ys) {
      NodeSetSize(K, |ys|);
      forall a | a in NodeSet(K, |ys|) ensures Eval(K, p, a) == Eval(K, q, a) {
        var i := NodeSetMember(K, |ys|, a);
        assert Eval(K, p, K.Num(i)) == ys[i];
      }
      AgreeEverywhere(K, p, q, NodeSet(K, |ys|), x);
    }
  }

  // ---------- barycentric forms ----------

  /** The summand w_j * y_j / (x - j). */
  function Share<T>(K: Field<T>, ys: seq<T>, x: T, j: nat): T
    requires j < |ys|
  {
    K.Mul(K.Mul(Weight(K, |ys|, j), ys[j]), K.Inv(K.Sub(x, K.Num(j))))
  }

  function Shares<T>(K: Field<T>, ys: seq<T>, x: T): (r: seq<T>)
    ensures |r| == |ys| && forall j :: 0 <= j < |r| ==> r[j] == Share(K, ys, x, j)
  {
    seq(|ys|, j requires 0 <= j < |ys| => Share(K, ys, x, j))
  }

  ghost predicate OffNodes<T>(K: Field<T>, n: nat, x: T) {
    forall j: nat :: j < n ==> OffNode(K, j, x)
  }

  ghost predicate OffNode<T>(K: Field<T>, j: nat, x: T) {
    K.Sub(x, K.Num(j)) != K.zero
  }

  lemma ShareTimes<T(!new)>(K: Field<T>, e: T, d: T, c: T)
    requires Lawful(K) && d != K.zero
    ensures K.Mul(K.Mul(e, d), K.Mul(c, K.Inv(d))) == K.Mul(c, e)
  {
    MulComm(K, e, d);
    MulComm(K, c, K.Inv(d));
    MulSwap(K, d, e, K.Inv(d), c);
    MulInv(K, d);
    MulOne(K, K.Mul(e, c));
    MulComm(K, e, c);
  }

  lemma ScaledShare<T(!new)>(K: Field<T>, ys: seq<T>, x: T, j: nat)
    requires Lawful(K) && j < |ys| && OffNodes(K, |ys|, x)
    ensures K.Mul(NodeProduct(K, |ys|, x), Shares(K, ys, x)[j])
         == K.Mul(K.Mul(Weight(K, |ys|, j), ys[j]), Except(K, |ys|, j, x))
  {
    assert OffNode(K, j, x);
    ExceptTimesNode(K, |ys|, j, x);
    ShareTimes(K, Except(K, |ys|, j, x), K.Sub(x, K.Num(j)), K.Mul(Weight(K, |ys|, j), ys[j]));
  }

  lemma {:induction false} FirstFormPrefix<T(!new)>(K: Field<T>, ys: seq<T>, x: T, k: nat)
    requires Lawful(K) && k <= |ys| && OffNodes(K, |ys|, x)
    ensures K.Mul(NodeProduct(K, |ys|, x), K.Sum(Shares(K, ys, x)[..k])) == Eval(K, InterpolantUpTo(K, ys, k), x)
  {
    hide *;
    var l, s := NodeProduct(K, |ys|, x), Shares(K, ys, x);
    if k == 0 {
      InterpolantZero(K, ys, x);
      SumEmpty(K);
      MulZero(K, l);
    } else {
      FirstFormPrefix(K, ys, x, k - 1);
      InterpolantStep(K, ys, k - 1, x);
      SumPrefix(K, s, k - 1);
      Distrib(K, l, K.Sum(s[..k - 1]), s[k - 1]);
      ScaledShare(K, ys, x, k - 1);
    }
  }

  /** First barycentric form: l(x) * sum_j w_j y_j / (x - j). */
  lemma FirstForm<T(!new)>(K: Field<T>, ys: seq<T>, x: T)
    requires Lawful(K) && OffNodes(K, |ys|, x)
    ensures K.Mul(NodeProduct(K, |ys|, x), K.Sum(Shares(K, ys, x))) == Eval(K, Interpolant(K, ys), x)
  {
    FirstFormPrefix(K, ys, x, |ys|);
    assert Shares(K, ys, x)[..|ys|] == Shares(K, ys, x);
  }
}

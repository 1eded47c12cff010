/** The meaning of a virtual polynomial on the hypercube: a sum of scaled products of multilinear tables,
    its partial sum when the lowest variable is fixed, and that partial sum as a univariate polynomial. */
module HypercubeSums {
  import opened Fields
  import opened Sums
  import opened Polynomials
  import opened Multilinear

  /** A scalar times the product of the multilinear polynomials with the given indices. */
  datatype Term<T> = Term(scalar: T, product: seq<nat>)

  ghost predicate AllSized<T>(fs: seq<seq<T>>, len: nat) {
    forall j :: 0 <= j < |fs| ==> |fs[j]| == len
  }

  /** Entry b of every table. */
  function Column<T>(fs: seq<seq<T>>, b: nat): (c: seq<T>)
    requires forall j :: 0 <= j < |fs| ==> b < |fs[j]|
    ensures |c| == |fs| && forall j :: 0 <= j < |fs| ==> c[j] == fs[j][b]
  {
    seq(|fs|, j requires 0 <= j < |fs| => fs[j][b])
  }

  /** The table of the product of several tables. */
  function ProductTable<T>(K: Field<T>, fs: seq<seq<T>>, len: nat): (t: seq<T>)
    requires forall j :: 0 <= j < |fs| ==> len <= |fs[j]|
    ensures |t| == len && forall b :: 0 <= b < len ==> t[b] == K.Product(Column(fs, b))
  {
    seq(len, b requires 0 <= b < len => K.Product(Column(fs, b)))
  }

  function FoldAll<T>(K: Field<T>, fs: seq<seq<T>>, r: T): (gs: seq<seq<T>>)
    ensures |gs| == |fs| && forall j :: 0 <= j < |fs| ==> gs[j] == Fold(K, fs[j], r)
  {
    seq(|fs|, j requires 0 <= j < |fs| => Fold(K, fs[j], r))
  }

  ghost predicate Indexed<T>(product: seq<nat>, mles: seq<T>) {
    forall j :: 0 <= j < |product| ==> product[j] < |mles|
  }

  function Factors<T>(mles: seq<seq<T>>, product: seq<nat>): (fs: seq<seq<T>>)
    requires Indexed(product, mles)
    ensures |fs| == |product| && forall j :: 0 <= j < |fs| ==> fs[j] == mles[product[j]]
  {
    seq(|product|, j requires 0 <= j < |product| => mles[product[j]])
  }

  ghost predicate WellFormed<T>(terms: seq<Term<T>>, mles: seq<seq<T>>, len: nat) {
    AllSized(mles, len) && forall i :: 0 <= i < |terms| ==> Indexed(terms[i].product, mles)
  }

  /** The sum of a product of tables over the hypercube when the lowest variable is set to t. */
  function PartialSum<T>(K: Field<T>, fs: seq<seq<T>>, half: nat, t: T): T
    requires AllSized(fs, 2 * half)
  {
    K.Sum(ProductTable(K, FoldAll(K, fs, t), half))
  }

  /** The sum of a virtual polynomial over the hypercube, all tables having the same size. */
  function PolySum<T>(K: Field<T>, terms: seq<Term<T>>, mles: seq<seq<T>>, len: nat): T
    requires WellFormed(terms, mles, len)
  {
    if terms == [] then K.zero
    else K.Add(K.Mul(K.Sum(ProductTable(K, Factors(mles, terms[0].product), len)), terms[0].scalar),
               PolySum(K, terms[1..], mles, len))
  }

  lemma FoldAllWellFormed<T>(K: Field<T>, terms: seq<Term<T>>, mles: seq<seq<T>>, half: nat, r: T)
    requires WellFormed(terms, mles, 2 * half)
    ensures WellFormed(terms, FoldAll(K, mles, r), half)
  {
  }

  /** The honest univariate function of one round: the hypercube sum with the lowest variable set to t. */
  function RoundSum<T>(K: Field<T>, terms: seq<Term<T>>, mles: seq<seq<T>>, half: nat, t: T): T
    requires WellFormed(terms, mles, 2 * half)
  {
    FoldAllWellFormed(K, terms, mles, half, t);
    PolySum(K, terms, FoldAll(K, mles, t), half)
  }

  lemma FactorsFold<T>(K: Field<T>, mles: seq<seq<T>>, product: seq<nat>, t: T)
    requires Indexed(product, mles)
    ensures Factors(FoldAll(K, mles, t), product) == FoldAll(K, Factors(mles, product), t)
  {
  }

  // ---------- the values at zero and one add up to the whole sum ----------

  lemma EndsOfProduct<T(!new)>(K: Field<T>, fs: seq<seq<T>>, half: nat)
    requires Lawful(K) && AllSized(fs, 2 * half)
    ensures K.Add(PartialSum(K, fs, half, K.zero), PartialSum(K, fs, half, K.one))
         == K.Sum(ProductTable(K, fs, 2 * half))
  {
    var s := ProductTable(K, fs, 2 * half);
    forall b | 0 <= b < half
      ensures Column(FoldAll(K, fs, K.zero), b) == Column(fs, 2 * b)
      ensures Column(FoldAll(K, fs, K.one), b) == Column(fs, 2 * b + 1)
    {
      forall j | 0 <= j < |fs|
        ensures Fold(K, fs[j], K.zero)[b] == fs[j][2 * b]
        ensures Fold(K, fs[j], K.one)[b] == fs[j][2 * b + 1]
      {
        LineEnds(K, fs[j][2 * b], fs[j][2 * b + 1]);
      }
    }
    assert ProductTable(K, FoldAll(K, fs, K.zero), half) == Evens(s);
    assert ProductTable(K, FoldAll(K, fs, K.one), half) == Odds(s);
    SumHalves(K, s);
  }

  lemma {:induction false} RoundEnds<T(!new)>(K: Field<T>, terms: seq<Term<T>>, mles: seq<seq<T>>, half: nat)
    requires Lawful(K) && WellFormed(terms, mles, 2 * half)
    ensures K.Add(RoundSum(K, terms, mles, half, K.zero), RoundSum(K, terms, mles, half, K.one))
         == PolySum(K, terms, mles, 2 * half)
  {
    if terms == [] {
      AddZero(K, K.zero);
    } else {
      var fs, c := Factors(mles, terms[0].product), terms[0].scalar;
      var a, b := PartialSum(K, fs, half, K.zero), PartialSum(K, fs, half, K.one);
      RoundEnds(K, terms[1..], mles, half);
      FactorsFold(K, mles, terms[0].product, K.zero);
      FactorsFold(K, mles, terms[0].product, K.one);
      EndsOfProduct(K, fs, half);
      Distrib(K, c, a, b);
      AddSwap(K, K.Mul(a, c), RoundSum(K, terms[1..], mles, half, K.zero),
              K.Mul(b, c), RoundSum(K, terms[1..], mles, half, K.one));
    }
  }

  // ---------- the round function is a polynomial of bounded degree ----------

  /** The product of the lines through los[j] at 0 and his[j] at 1. */
  function LinesPoly<T>(K: Field<T>, los: seq<T>, his: seq<T>): (p: seq<T>)
    requires |los| == |his|
    ensures |p| == |los| + 1
  {
    if los == [] then [K.one]
    else MulLinear(K, los[0], K.Sub(his[0], los[0]), LinesPoly(K, los[1..], his[1..]))
  }

  function LinesAt<T>(K: Field<T>, los: seq<T>, his: seq<T>, t: T): (c: seq<T>)
    requires |los| == |his|
    ensures |c| == |los| && forall j :: 0 <= j < |c| ==> c[j] == K.Line(los[j], his[j], t)
  {
    seq(|los|, j requires 0 <= j < |los| => K.Line(los[j], his[j], t))
  }

  lemma {:induction false} LinesPolyEval<T(!new)>(K: Field<T>, los: seq<T>, his: seq<T>, t: T)
    requires Lawful(K) && |los| == |his|
    ensures Eval(K, LinesPoly(K, los, his), t) == K.Product(LinesAt(K, los, his, t))
  {
    if los == [] {
      assert [K.one][1..] == [];
      MulZero(K, t);
      AddZero(K, K.one);
    } else {
      LinesPolyEval(K, los[1..], his[1..], t);
      EvalMulLinear(K, los[0], K.Sub(his[0], los[0]), LinesPoly(K, los[1..], his[1..]), t);
      assert LinesAt(K, los, his, t)[1..] == LinesAt(K, los[1..], his[1..], t);
    }
  }

  function ProductPoly<T>(K: Field<T>, fs: seq<seq<T>>, half: nat, count: nat): (p: seq<T>)
    requires AllSized(fs, 2 * half) && count <= half
    ensures |p| <= |fs| + 1
  {
    if count == 0 then []
    else PolyAdd(K, ProductPoly(K, fs, half, count - 1),
                 LinesPoly(K, Column(fs, 2 * (count - 1)), Column(fs, 2 * (count - 1) + 1)))
  }

  lemma {:induction false} ProductPolyEval<T(!new)>(K: Field<T>, fs: seq<seq<T>>, half: nat, count: nat, t: T)
    requires Lawful(K) && AllSized(fs, 2 * half) && count <= half
    ensures Eval(K, ProductPoly(K, fs, half, count), t) == K.Sum(ProductTable(K, FoldAll(K, fs, t), half)[..count])
  {
    if count > 0 {
      var b, table := count - 1, ProductTable(K, FoldAll(K, fs, t), half);
      var los, his := Column(fs, 2 * b), Column(fs, 2 * b + 1);
      ProductPolyEval(K, fs, half, b, t);
      EvalAdd(K, ProductPoly(K, fs, half, b), LinesPoly(K, los, his), t);
      LinesPolyEval(K, los, his, t);
      assert Column(FoldAll(K, fs, t), b) == LinesAt(K, los, his, t);
      SumPrefix(K, table, b);
    }
  }

  ghost predicate DegreeAtMost<T>(terms: seq<Term<T>>, d: nat) {
    forall i :: 0 <= i < |terms| ==> |terms[i].product| <= d
  }

  function RoundPoly<T>(K: Field<T>, terms: seq<Term<T>>, mles: seq<seq<T>>, half: nat, ghost d: nat): (p: seq<T>)
    requires WellFormed(terms, mles, 2 * half) && DegreeAtMost(terms, d)
    ensures |p| <= d + 1
  {
    if terms == [] then []
    else PolyAdd(K, Scaled(K, terms[0].scalar, ProductPoly(K, Factors(mles, terms[0].product), half, half)),
                 RoundPoly(K, terms[1..], mles, half, d))
  }

  lemma {:induction false} RoundPolyEval<T(!new)>(K: Field<T>, terms: seq<Term<T>>, mles: seq<seq<T>>, half: nat,
                                                  d: nat, t: T)
    requires Lawful(K) && WellFormed(terms, mles, 2 * half) && DegreeAtMost(terms, d)
    ensures Eval(K, RoundPoly(K, terms, mles, half, d), t) == RoundSum(K, terms, mles, half, t)
  {
    if terms != [] {
      var fs, c := Factors(mles, terms[0].product), terms[0].scalar;
      var p := ProductPoly(K, fs, half, half);
      RoundPolyEval(K, terms[1..], mles, half, d, t);
      EvalAdd(K, Scaled(K, c, p), RoundPoly(K, terms[1..], mles, half, d), t);
      EvalScaled(K, c, p, t);
      ProductPolyEval(K, fs, half, half, t);
      assert ProductTable(K, FoldAll(K, fs, t), half)[..half] == ProductTable(K, FoldAll(K, fs, t), half);
      FactorsFold(K, mles, terms[0].product, t);
      MulComm(K, c, Eval(K, p, t));
    }
  }
}

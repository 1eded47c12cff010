/** The sumcheck protocol end to end: completeness of the distributed prover against the verifier, and
    soundness of the verifier against any prover. */
module Sumcheck {
  import opened Fields
  import opened Sums
  import opened Polynomials
  import opened Interpolation
  import opened Extrapolation
  import opened Multilinear
  import opened HypercubeSums
  import opened MixedArity
  import opened DistributedProver
  import opened Registration
  import opened Merge
  import opened ProverRuns
  import opened Transcripts
  import opened Verifier

  // ---------- the polynomial at a point ----------

  /** Every table at the suffix of the point that matches its arity. */
  function RawEvaluations<T>(K: Field<T>, inst: Instance<T>, point: seq<T>): (r: seq<T>)
    requires ValidInstance(inst) && |point| == inst.numVars
    ensures |r| == |inst.mles|
    ensures forall i :: 0 <= i < |r| ==>
              (Suffix(inst, i); FoldManySize(K, inst.mles[i], point[inst.numVars - inst.arities[i]..], inst.arities[i]);
               r[i] == FoldMany(K, inst.mles[i], point[inst.numVars - inst.arities[i]..])[0])
  {
    seq(|inst.mles|, i requires 0 <= i < |inst.mles| =>
      Suffix(inst, i);
      FoldManySize(K, inst.mles[i], point[inst.numVars - inst.arities[i]..], inst.arities[i]);
      FoldMany(K, inst.mles[i], point[inst.numVars - inst.arities[i]..])[0])
  }

  lemma Suffix<T>(inst: Instance<T>, i: nat)
    requires ValidInstance(inst) && i < |inst.mles|
    ensures inst.arities[i] <= inst.numVars && |inst.mles[i]| == Pow2(inst.arities[i])
  {
  }

  function Picked<T>(values: seq<T>, product: seq<nat>): (r: seq<T>)
    requires Indexed(product, values)
    ensures |r| == |product| && forall j :: 0 <= j < |r| ==> r[j] == values[product[j]]
  {
    seq(|product|, j requires 0 <= j < |product| => values[product[j]])
  }

  function SumOfProducts<T>(K: Field<T>, terms: seq<Term<T>>, values: seq<T>): T
    requires forall i :: 0 <= i < |terms| ==> Indexed(terms[i].product, values)
  {
    if terms == [] then K.zero
    else K.Add(K.Mul(K.Product(Picked(values, terms[0].product)), terms[0].scalar),
               SumOfProducts(K, terms[1..], values))
  }

  /** `evaluate_slow`: the virtual polynomial at a point, with suffix alignment. */
  function EvaluateSlow<T>(K: Field<T>, inst: Instance<T>, point: seq<T>): T
    requires ValidInstance(inst) && |point| == inst.numVars
  {
    ProductsIndexed(K, inst, point);
    SumOfProducts(K, inst.terms, RawEvaluations(K, inst, point))
  }

  lemma ProductsIndexed<T>(K: Field<T>, inst: Instance<T>, point: seq<T>)
    requires ValidInstance(inst) && |point| == inst.numVars
    ensures forall i :: 0 <= i < |inst.terms| ==> Indexed(inst.terms[i].product, RawEvaluations(K, inst, point))
  {
    forall i | 0 <= i < |inst.terms| ensures Indexed(inst.terms[i].product, RawEvaluations(K, inst, point)) {
      assert EqualArities(inst, inst.terms[i].product);
    }
  }

  /** Fixing the dummy variables of a repeated table does nothing. */
  lemma {:induction false} FoldManyRepeat<T(!new)>(K: Field<T>, f: seq<T>, q: nat, point: seq<T>)
    requires Lawful(K) && q <= |point|
    ensures FoldMany(K, Repeat(f, Pow2(q)), point) == FoldMany(K, f, point[q..])
    decreases q
  {
    hide Repeat, Fold;
    if q == 0 {
      RepeatOnce(f);
      assert point[0..] == point;
    } else {
      FoldRepeat(K, f, Pow2(q - 1), point[0]);
      FoldManyRepeat(K, f, q - 1, point[1..]);
      assert point[1..][q - 1..] == point[q..];
    }
  }

  lemma SingleProduct<T(!new)>(K: Field<T>, mles: seq<seq<T>>, values: seq<T>, product: seq<nat>)
    requires Lawful(K) && AllSized(mles, 1) && |values| == |mles| && Indexed(product, mles)
    requires forall i :: 0 <= i < |mles| ==> mles[i][0] == values[i]
    ensures Indexed(product, values)
    ensures K.Sum(ProductTable(K, Factors(mles, product), 1)) == K.Product(Picked(values, product))
  {
    hide Field<T>.Product, Field<T>.Sum;
    assert Column(Factors(mles, product), 0) == Picked(values, product);
    var table := ProductTable(K, Factors(mles, product), 1);
    assert table == [K.Product(Picked(values, product))];
    SumOne(K, table[0]);
  }

  lemma {:induction false} SinglePoint<T(!new)>(K: Field<T>, terms: seq<Term<T>>, mles: seq<seq<T>>, values: seq<T>)
    requires Lawful(K) && WellFormed(terms, mles, 1) && |values| == |mles|
    requires forall i :: 0 <= i < |mles| ==> mles[i][0] == values[i]
    ensures forall i :: 0 <= i < |terms| ==> Indexed(terms[i].product, values)
    ensures PolySum(K, terms, mles, 1) == SumOfProducts(K, terms, values)
  {
    hide Field<T>.Product, Field<T>.Sum, ProductTable, Factors, Picked;
    forall i | 0 <= i < |terms| ensures Indexed(terms[i].product, values) { assert Indexed(terms[i].product, mles); }
    if terms != [] {
      SinglePoint(K, terms[1..], mles, values);
      SingleProduct(K, mles, values, terms[0].product);
    }
  }

  /** When every variable is fixed, the remaining sum is the polynomial at the point. */
  lemma FullyFolded<T(!new)>(K: Field<T>, inst: Instance<T>, point: seq<T>)
    requires Lawful(K) && ValidInstance(inst) && |point| == inst.numVars
    ensures WellFormed(inst.terms, FoldTables(K, Padded(inst), point), 1)
    ensures PolySum(K, inst.terms, FoldTables(K, Padded(inst), point), 1) == EvaluateSlow(K, inst, point)
  {
    hide FoldMany, FoldTables, Repeat, PolySum, SumOfProducts;
    PaddedWellFormed(inst);
    FoldTablesWellFormed(K, inst.terms, Padded(inst), inst.numVars, point);
    var mles, values := FoldTables(K, Padded(inst), point), RawEvaluations(K, inst, point);
    forall i | 0 <= i < |mles| ensures mles[i][0] == values[i] {
      FoldTablesAt(K, Padded(inst), point, i);
      FoldManyRepeat(K, inst.mles[i], inst.numVars - inst.arities[i], point);
    }
    SinglePoint(K, inst.terms, mles, values);
  }

  // ---------- the honest polynomials ----------

  /** The sum left to prove after the given challenges. */
  function TrueClaim<T>(K: Field<T>, inst: Instance<T>, challenges: seq<T>): T
    requires ValidInstance(inst) && |challenges| <= inst.numVars
  {
    PaddedWellFormed(inst);
    FoldTablesWellFormed(K, inst.terms, Padded(inst), inst.numVars, challenges);
    PolySum(K, inst.terms, FoldTables(K, Padded(inst), challenges), Pow2(inst.numVars - |challenges|))
  }

  /** The round polynomial after the given challenges, in coefficients. */
  function TruePoly<T>(K: Field<T>, inst: Instance<T>, challenges: seq<T>): (p: seq<T>)
    requires ValidInstance(inst) && |challenges| < inst.numVars
    ensures |p| <= inst.maxDegree + 1
  {
    PaddedWellFormed(inst);
    FoldTablesWellFormed(K, inst.terms, Padded(inst), inst.numVars, challenges);
    RoundPoly(K, inst.terms, FoldTables(K, Padded(inst), challenges), Pow2(inst.numVars - |challenges| - 1),
              inst.maxDegree)
  }

  /** The round polynomial sums to the claim, and its value at a challenge is the next claim. */
  lemma TruePolyExact<T(!new)>(K: Field<T>, inst: Instance<T>, challenges: seq<T>, r: T)
    requires Lawful(K) && ValidInstance(inst) && |challenges| < inst.numVars
    ensures K.Add(Eval(K, TruePoly(K, inst, challenges), K.zero), Eval(K, TruePoly(K, inst, challenges), K.one))
         == TrueClaim(K, inst, challenges)
    ensures Eval(K, TruePoly(K, inst, challenges), r) == TrueClaim(K, inst, challenges + [r])
  {
    hide FoldTables, Padded, RoundPoly, PolySum, WellFormed, ValidInstance;
    var terms, mles, half := inst.terms, FoldTables(K, Padded(inst), challenges), Pow2(inst.numVars - |challenges| - 1);
    PaddedWellFormed(inst);
    FoldTablesWellFormed(K, terms, Padded(inst), inst.numVars, challenges);
    FoldTablesWellFormed(K, terms, Padded(inst), inst.numVars, challenges + [r]);
    RoundPolyEval(K, terms, mles, half, inst.maxDegree, K.zero);
    RoundPolyEval(K, terms, mles, half, inst.maxDegree, K.one);
    RoundPolyEval(K, terms, mles, half, inst.maxDegree, r);
    RoundEnds(K, terms, mles, half);
    FoldTablesSnoc(K, Padded(inst), challenges, r);
  }

  lemma FoldTablesSnoc<T>(K: Field<T>, mles: seq<seq<T>>, point: seq<T>, r: T)
    ensures FoldTables(K, mles, point + [r]) == FoldAll(K, FoldTables(K, mles, point), r)
  {
    FoldTablesConcat(K, mles, point, [r]);
    var folded := FoldTables(K, mles, point);
    assert FoldTables(K, FoldAll(K, folded, [r][0]), [r][1..]) == FoldAll(K, folded, r);
  }

  lemma HonestValues<T(!new)>(K: Field<T>, inst: Instance<T>, logThreads: nat, challenges: seq<T>)
    requires Lawful(K) && ValidInstance(inst) && logThreads <= inst.numVars && Wide(inst, logThreads)
    requires |challenges| < inst.numVars && CharacteristicAbove(K, inst.maxDegree)
    ensures PassesThrough(K, TruePoly(K, inst, challenges), DistributedMessage(K, inst, logThreads, challenges))
  {
    hide FoldTables, Padded, RoundSum, WellFormed, ValidInstance, DistributedMessage, TruePoly, Eval, Field<T>.Num;
    DistributedMessageExact(K, inst, logThreads, challenges);
    var message := DistributedMessage(K, inst, logThreads, challenges);
    forall i: nat | i <= inst.maxDegree ensures Eval(K, TruePoly(K, inst, challenges), K.Num(i)) == message[i] {
      TruePolyValue(K, inst, challenges, K.Num(i));
    }
  }

  lemma TruePolyValue<T(!new)>(K: Field<T>, inst: Instance<T>, challenges: seq<T>, t: T)
    requires Lawful(K) && ValidInstance(inst) && |challenges| < inst.numVars
    ensures WellFormed(inst.terms, FoldTables(K, Padded(inst), challenges), 2 * Pow2(inst.numVars - |challenges| - 1))
    ensures Eval(K, TruePoly(K, inst, challenges), t)
         == RoundSum(K, inst.terms, FoldTables(K, Padded(inst), challenges), Pow2(inst.numVars - |challenges| - 1), t)
  {
    hide FoldTables, Padded, RoundPoly, RoundSum, WellFormed, ValidInstance, Eval;
    PaddedWellFormed(inst);
    FoldTablesWellFormed(K, inst.terms, Padded(inst), inst.numVars, challenges);
    RoundPolyEval(K, inst.terms, FoldTables(K, Padded(inst), challenges), Pow2(inst.numVars - |challenges| - 1),
                  inst.maxDegree, t);
  }
}

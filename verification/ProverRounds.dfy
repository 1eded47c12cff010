/** One worker of the sumcheck prover: the message of a round and the fixing of a variable, as the code
    computes them, and the share of the round polynomial that the message stands for. */
module ProverRounds {
  import opened Fields
  import opened Sums
  import opened Polynomials
  import opened Interpolation
  import opened Extrapolation
  import opened Multilinear
  import opened HypercubeSums
  import opened MixedArity
  import opened RoundEvaluator

  /** What all workers share: the monomials, the kind of every table, the maximal degree, and the number of
      variables left to the second phase. */
  datatype Job<T> = Job(terms: seq<Term<T>>, meta: seq<PolyMeta>, maxDegree: nat, phase2NumVars: nat)

  function Min(a: nat, b: nat): nat { if a <= b then a else b }

  /** `arities` gives the number of variables per worker of every table before the first round; in a round
      that expects `left` variables, a split table has at most `left` of them. */
  ghost predicate ValidJob<T>(job: Job<T>, arities: seq<nat>) {
    && |job.meta| == |arities|
    && (forall i :: 0 <= i < |arities| ==>
        arities[i] > 0 && (job.meta[i].Phase2Only? ==> arities[i] <= job.phase2NumVars))
    && (forall i :: 0 <= i < |job.terms| ==> ValidProduct(job, arities, job.terms[i].product))
  }

  /** All factors of one product have the same number of variables, hence the same kind. */
  ghost predicate ValidProduct<T>(job: Job<T>, arities: seq<nat>, product: seq<nat>) {
    && 0 < |product| <= job.maxDegree
    && (forall j :: 0 <= j < |product| ==> product[j] < |arities| && product[j] < |job.meta|)
    && (forall j :: 0 <= j < |product| ==>
          arities[product[j]] == arities[product[0]] && job.meta[product[j]] == job.meta[product[0]])
  }

  function CurrentArity(meta: PolyMeta, arity: nat, left: nat): nat {
    if meta.Normal? then Min(arity, left) else arity
  }

  ghost predicate ValidTables<T>(job: Job<T>, arities: seq<nat>, left: nat, mles: seq<seq<T>>) {
    && |mles| == |arities| == |job.meta|
    && forall i :: 0 <= i < |mles| ==> |mles[i]| == Pow2(CurrentArity(job.meta[i], arities[i], left))
  }

  /** The scaled and extrapolated contribution of one monomial. */
  function TermMessage<T>(K: Field<T>, job: Job<T>, isMain: bool, expected: nat, mles: seq<seq<T>>,
                          term: Term<T>): (r: seq<T>)
    requires |mles| == |job.meta| && Indexed(term.product, mles) && 0 < |term.product| <= job.maxDegree
    requires AllSized(Factors(mles, term.product), |mles[term.product[0]]|) && |mles[term.product[0]]| > 0
    ensures |r| == job.maxDegree + 1
  {
    var values := EvaluateProduct(K, Factors(mles, term.product), job.meta[term.product[0]], isMain, expected,
                                  job.phase2NumVars);
    var scaled := seq(|values|, i requires 0 <= i < |values| => K.Mul(values[i], term.scalar));
    Extended(K, scaled, job.maxDegree + 1)
  }

  ghost predicate Computable<T>(job: Job<T>, mles: seq<seq<T>>, product: seq<nat>) {
    && 0 < |product| <= job.maxDegree && Indexed(product, mles)
    && AllSized(Factors(mles, product), |mles[product[0]]|) && |mles[product[0]]| > 0
  }

  /** The message of a worker: the sum of the contributions of the first `count` monomials. */
  function MessageUpTo<T>(K: Field<T>, job: Job<T>, isMain: bool, expected: nat, mles: seq<seq<T>>,
                          count: nat): (r: seq<T>)
    requires |mles| == |job.meta| && count <= |job.terms|
    requires forall i :: 0 <= i < count ==> Computable(job, mles, job.terms[i].product)
    ensures |r| == job.maxDegree + 1
  {
    if count == 0 then Zeros(K, job.maxDegree + 1)
    else
      assert Computable(job, mles, job.terms[count - 1].product);
      Plus(K, MessageUpTo(K, job, isMain, expected, mles, count - 1),
           TermMessage(K, job, isMain, expected, mles, job.terms[count - 1]))
  }

  /** `fix_var`: only split tables that still have the expected number of variables are folded. */
  function FixVar<T>(K: Field<T>, meta: seq<PolyMeta>, expected: nat, mles: seq<seq<T>>, r: T): (gs: seq<seq<T>>)
    requires |meta| == |mles| && forall i :: 0 <= i < |mles| ==> |mles[i]| > 0
    ensures |gs| == |mles|
    ensures forall i :: 0 <= i < |gs| ==>
              gs[i] == if CeilLog2(|mles[i]|) == expected && meta[i].Normal? then Fold(K, mles[i], r) else mles[i]
  {
    seq(|mles|, i requires 0 <= i < |mles| =>
      if CeilLog2(|mles[i]|) == expected && meta[i].Normal? then Fold(K, mles[i], r) else mles[i])
  }

  lemma ProductComputable<T>(job: Job<T>, arities: seq<nat>, left: nat, mles: seq<seq<T>>, product: seq<nat>)
    requires ValidTables(job, arities, left, mles) && ValidProduct(job, arities, product)
    ensures Computable(job, mles, product)
    ensures AllSized(Factors(mles, product), Pow2(CurrentArity(job.meta[product[0]], arities[product[0]], left)))
  {
    hide Pow2;
    forall j | 0 <= j < |product|
      ensures |mles[product[j]]| == Pow2(CurrentArity(job.meta[product[0]], arities[product[0]], left)) {}
    Pow2Positive(CurrentArity(job.meta[product[0]], arities[product[0]], left));
  }

  lemma Pow2Positive(n: nat)
    ensures Pow2(n) > 0
  {
  }

  lemma FixVarSize<T>(K: Field<T>, meta: PolyMeta, arity: nat, left: nat, f: seq<T>, r: T)
    requires |f| == Pow2(CurrentArity(meta, arity, left)) && left > 0
    ensures |f| > 0
    ensures |if CeilLog2(|f|) == left && meta.Normal? then Fold(K, f, r)
              else f| == Pow2(CurrentArity(meta, arity, left - 1))
  {
    Pow2Positive(CurrentArity(meta, arity, left));
    CeilLog2Exact(CurrentArity(meta, arity, left));
    Pow2Even(left);
  }

  lemma FixVarValid<T>(K: Field<T>, job: Job<T>, arities: seq<nat>, left: nat, mles: seq<seq<T>>, r: T)
    requires ValidTables(job, arities, left, mles) && left > 0
    ensures forall i :: 0 <= i < |mles| ==> |mles[i]| > 0
    ensures ValidTables(job, arities, left - 1, FixVar(K, job.meta, left, mles, r))
  {
    hide Pow2, CurrentArity, CeilLog2, Fold;
    forall i | 0 <= i < |mles|
      ensures |mles[i]| > 0
      ensures |if CeilLog2(|mles[i]|) == left && job.meta[i].Normal? then Fold(K, mles[i], r) else mles[i]|
           == Pow2(CurrentArity(job.meta[i], arities[i], left - 1))
    {
      FixVarSize(K, job.meta[i], arities[i], left, mles[i], r);
    }
  }

  // ---------- what the message means ----------

  /** The number of variables a product is padded to: the hypercube of the worker, or of both phases. */
  function PaddedTo(meta: PolyMeta, left: nat, phase2NumVars: nat): nat {
    if meta.Normal? then left else left + phase2NumVars
  }

  function PaddedFactors<T>(job: Job<T>, arities: seq<nat>, left: nat, mles: seq<seq<T>>,
                            product: seq<nat>): seq<seq<T>>
    requires |mles| == |arities| == |job.meta| && Indexed(product, mles) && product != []
  {
    var meta, arity := job.meta[product[0]], arities[product[0]];
    var total := PaddedTo(meta, left, job.phase2NumVars);
    Pads(Factors(mles, product), Pow2(SaturatingSub(total, CurrentArity(meta, arity, left))))
  }

  lemma PaddedFactorsSized<T>(job: Job<T>, arities: seq<nat>, left: nat, mles: seq<seq<T>>, product: seq<nat>)
    requires ValidJob(job, arities) && ValidTables(job, arities, left, mles) && ValidProduct(job, arities, product) &&
               left > 0
    ensures Indexed(product, mles)
    ensures AllSized(PaddedFactors(job, arities, left, mles, product),
                     2 * Pow2(PaddedTo(job.meta[product[0]], left, job.phase2NumVars) - 1))
  {
    var meta, arity := job.meta[product[0]], arities[product[0]];
    ProductComputable(job, arities, left, mles, product);
    PadsSized(Factors(mles, product), CurrentArity(meta, arity, left), PaddedTo(meta, left, job.phase2NumVars));
  }

  /** A worker's share of the honest round function, for one product. */
  function ProductShare<T>(K: Field<T>, job: Job<T>, isMain: bool, arities: seq<nat>, left: nat, mles: seq<seq<T>>,
                           product: seq<nat>, t: T): T
    requires ValidJob(job, arities) && ValidTables(job, arities, left, mles) && ValidProduct(job, arities, product) &&
               left > 0
  {
    PaddedFactorsSized(job, arities, left, mles, product);
    if job.meta[product[0]].Normal? || isMain
    then PartialSum(K, PaddedFactors(job, arities, left, mles, product),
                    Pow2(PaddedTo(job.meta[product[0]], left, job.phase2NumVars) - 1), t)
    else K.zero
  }

  lemma ProductExact<T(!new)>(K: Field<T>, job: Job<T>, isMain: bool, arities: seq<nat>, left: nat, mles: seq<seq<T>>,
                              product: seq<nat>, i: nat)
    requires Lawful(K) && ValidJob(job, arities) && ValidTables(job, arities, left, mles)
    requires ValidProduct(job, arities, product) && left > 0 && i <= |product|
    ensures Computable(job, mles, product)
    ensures EvaluateProduct(K, Factors(mles, product), job.meta[product[0]], isMain, left, job.phase2NumVars)[i]
         == ProductShare(K, job, isMain, arities, left, mles, product, K.Num(i))
  {
    hide EvaluateProduct, PartialSum, Pads, Factors;
    var meta, arity := job.meta[product[0]], arities[product[0]];
    ProductComputable(job, arities, left, mles, product);
    PaddedFactorsSized(job, arities, left, mles, product);
    var fs := Factors(mles, product);
    if meta.Normal? {
      NormalProductExact(K, fs, isMain, left, job.phase2NumVars, Min(arity, left), i);
    } else {
      Phase2ProductExact(K, fs, isMain, left, job.phase2NumVars, arity, i);
    }
  }

  /** The share of a product as a polynomial with at most |product| + 1 coefficients. */
  function SharePoly<T>(K: Field<T>, job: Job<T>, isMain: bool, arities: seq<nat>, left: nat, mles: seq<seq<T>>,
                        product: seq<nat>): (p: seq<T>)
    requires ValidJob(job, arities) && ValidTables(job, arities, left, mles) && ValidProduct(job, arities, product) &&
               left > 0
    ensures |p| <= |product| + 1
  {
    PaddedFactorsSized(job, arities, left, mles, product);
    var half := Pow2(PaddedTo(job.meta[product[0]], left, job.phase2NumVars) - 1);
    if job.meta[product[0]].Normal? || isMain
    then ProductPoly(K, PaddedFactors(job, arities, left, mles, product), half, half)
    else []
  }

  lemma ProductPolyIsPartialSum<T(!new)>(K: Field<T>, fs: seq<seq<T>>, half: nat, t: T)
    requires Lawful(K) && AllSized(fs, 2 * half)
    ensures Eval(K, ProductPoly(K, fs, half, half), t) == PartialSum(K, fs, half, t)
  {
    ProductPolyEval(K, fs, half, half, t);
    assert ProductTable(K, FoldAll(K, fs, t), half)[..half] == ProductTable(K, FoldAll(K, fs, t), half);
  }

  lemma SharePolyEval<T(!new)>(K: Field<T>, job: Job<T>, isMain: bool, arities: seq<nat>, left: nat, mles: seq<seq<T>>,
                               product: seq<nat>, t: T)
    requires Lawful(K) && ValidJob(job, arities) && ValidTables(job, arities, left, mles)
    requires ValidProduct(job, arities, product) && left > 0
    ensures Eval(K, SharePoly(K, job, isMain, arities, left, mles, product), t)
         == ProductShare(K, job, isMain, arities, left, mles, product, t)
  {
    hide ProductPoly, PartialSum, PaddedFactors, Pow2;
    PaddedFactorsSized(job, arities, left, mles, product);
    if job.meta[product[0]].Normal? || isMain {
      ProductPolyIsPartialSum(K, PaddedFactors(job, arities, left, mles, product),
                              Pow2(PaddedTo(job.meta[product[0]], left, job.phase2NumVars) - 1), t);
    }
  }

  /** Every entry of a monomial's contribution, extrapolated or not, is the scaled share at its index. */
  lemma TermMessageExact<T(!new)>(K: Field<T>, job: Job<T>, isMain: bool, arities: seq<nat>, left: nat,
                                  mles: seq<seq<T>>,
                                  term: Term<T>, i: nat)
    requires Lawful(K) && ValidJob(job, arities) && ValidTables(job, arities, left, mles) && left > 0
    requires ValidProduct(job, arities, term.product) && i <= job.maxDegree && CharacteristicAbove(K, job.maxDegree)
    ensures Computable(job, mles, term.product)
    ensures TermMessage(K, job, isMain, left, mles, term)[i]
         == K.Mul(ProductShare(K, job, isMain, arities, left, mles, term.product, K.Num(i)), term.scalar)
  {
    hide EvaluateProduct, ProductShare, SharePoly, Factors, AllSized, ValidJob, ValidTables, ValidProduct;
    ProductBounds(job, arities, term.product);
    ProductComputable(job, arities, left, mles, term.product);
    var values := EvaluateProduct(K, Factors(mles, term.product), job.meta[term.product[0]], isMain, left,
                                  job.phase2NumVars);
    var scaled := seq(|values|, k requires 0 <= k < |values| => K.Mul(values[k], term.scalar));
    var p := SharePoly(K, job, isMain, arities, left, mles, term.product);
    var q := Scaled(K, term.scalar, p);
    forall t: T
      ensures Eval(K, q, t) == K.Mul(ProductShare(K, job, isMain, arities, left, mles, term.product, t), term.scalar)
    {
      SharePolyEval(K, job, isMain, arities, left, mles, term.product, t);
      EvalScaled(K, term.scalar, p, t);
      MulComm(K, term.scalar, Eval(K, p, t));
    }
    forall k | 0 <= k < |scaled| ensures Eval(K, q, K.Num(k)) == scaled[k] {
      ProductExact(K, job, isMain, arities, left, mles, term.product, k);
    }
    assert PassesThrough(K, q, scaled);
    ExtendedExact(K, q, scaled, job.maxDegree + 1);
  }

  lemma ProductBounds<T>(job: Job<T>, arities: seq<nat>, product: seq<nat>)
    requires ValidProduct(job, arities, product)
    ensures 0 < |product| <= job.maxDegree && product[0] < |job.meta|
  {
  }
}

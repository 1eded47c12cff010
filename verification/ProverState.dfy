/** The state of one prover thread, updated in place round after round. */
module ProverState {
  import opened Wrappers
  import opened Fields
  import opened Sums
  import opened Interpolation
  import opened Extrapolation
  import opened Multilinear
  import opened HypercubeSums
  import opened RoundEvaluator
  import opened ProverRounds

  /** The prover has code for products of up to six factors. */
  const MAX_FACTORS := 6

  ghost predicate Supported<T>(terms: seq<Term<T>>) {
    forall i :: 0 <= i < |terms| ==> |terms[i].product| <= MAX_FACTORS
  }

  class IOPProverState<T(==, !new)> {
    const K: Field<T>
    const job: Job<T>
    const isMainWorker: bool
    const maxNumVariables: nat
    var round: nat
    var challenges: seq<T>
    var mles: seq<seq<T>>

    /** `prover_init_with_extrapolation_aux`: a constant polynomial and a wrong number of kinds are refused. */
    constructor (K: Field<T>, job: Job<T>, isMainWorker: bool, maxNumVariables: nat, mles: seq<seq<T>>)
      requires maxNumVariables != 0 && |job.meta| == |mles|
      ensures this.K == K && this.job == job && this.isMainWorker == isMainWorker &&
                this.maxNumVariables == maxNumVariables
      ensures round == 0 && challenges == [] && this.mles == mles
    {
      this.K, this.job, this.isMainWorker, this.maxNumVariables := K, job, isMainWorker, maxNumVariables;
      round, challenges, this.mles := 0, [], mles;
    }

    /** The number of variables of a full table before the next call; the fold of a round happens in the next call. */
    ghost function Left(): nat
      requires round <= maxNumVariables
      reads this`round
    {
      if round == 0 then maxNumVariables else maxNumVariables + 1 - round
    }

    function ExpectedNumVarsAtRound(): nat
      requires round <= maxNumVariables
      reads this`round
    {
      maxNumVariables + 1 - round
    }

    method PushChallenges(more: seq<T>)
      modifies this`challenges
      ensures challenges == old(challenges) + more
    {
      challenges := challenges + more;
    }

    /** `fix_var`: every split table that still has the expected number of variables loses its lowest one. */
    method FixVar(r: T)
      requires round <= maxNumVariables && |job.meta| == |mles| && forall i :: 0 <= i < |mles| ==> |mles[i]| > 0
      modifies this`mles
      ensures mles == ProverRounds.FixVar(K, job.meta, ExpectedNumVarsAtRound(), old(mles), r)
    {
      hide ProverRounds.FixVar, CeilLog2, Fold;
      var expected := ExpectedNumVarsAtRound();
      ghost var was, goal := mles, ProverRounds.FixVar(K, job.meta, expected, mles, r);
      for i := 0 to |mles|
        invariant |mles| == |was|
        invariant forall j :: 0 <= j < i ==> mles[j] == goal[j]
        invariant forall j :: i <= j < |was| ==> mles[j] == was[j]
      {
        if expected == CeilLog2(|mles[i]|) && job.meta[i].Normal? {
          mles := mles[i := Fold(K, mles[i], r)];
        }
      }
    }

    /** The values of one monomial, scaled and extrapolated to maxDegree + 1 points; None is a product with too many
        factors, for which the prover has no code. */
    method TermValues(term: Term<T>) returns (uni: Option<seq<T>>)
      requires Lawful(K) && CharacteristicAbove(K, job.maxDegree)
      requires 0 < round <= maxNumVariables && |job.meta| == |mles| && Computable(job, mles, term.product)
      ensures uni.Some? <==> |term.product| <= MAX_FACTORS
      ensures uni.Some? ==> uni.value == TermMessage(K, job, isMainWorker, ExpectedNumVarsAtRound(), mles, term)
    {
      hide EvaluateProduct, Interpolant;
      if |term.product| > MAX_FACTORS {
        return None;
      }
      var n := |term.product| + 1;
      var monomial := EvaluateProduct(K, Factors(mles, term.product), job.meta[term.product[0]], isMainWorker,
                                      ExpectedNumVarsAtRound(), job.phase2NumVars);
      ghost var scaled := seq(|monomial|, i requires 0 <= i < |monomial| => K.Mul(monomial[i], term.scalar));
      var uniVariate := new T[job.maxDegree + 1](_ => K.zero);
      for i := 0 to n
        invariant uniVariate[..i] == scaled[..i]
      {
        uniVariate[i] := K.Mul(monomial[i], term.scalar);
        assert uniVariate[..i + 1] == uniVariate[..i] + [scaled[i]];
      }
      assert uniVariate[..n] == scaled;
      if |term.product| < job.maxDegree {
        ExtrapolateFromTable(K, uniVariate, n);
      }
      uni := Some(uniVariate[..]);
    }

    /** `prove_round_and_update_state`: the challenge of the previous round is fixed first, then the message of
        this round is summed up over all monomials. */
    method ProveRoundAndUpdateState(challenge: Option<T>, ghost arities: seq<nat>) returns (message: Option<seq<T>>)
      requires Lawful(K) && CharacteristicAbove(K, job.maxDegree)
      requires round < maxNumVariables && (round > 0 ==> challenge.Some?)
      requires ValidJob(job, arities) && ValidTables(job, arities, Left(), mles)
      modifies this
      ensures round == old(round) + 1
      ensures challenges == if old(round) > 0 then old(challenges) + [challenge.value] else old(challenges)
      ensures (forall i :: 0 <= i < |old(mles)| ==> |old(mles)[i]| > 0) && |job.meta| == |old(mles)|
      ensures mles == if old(round) > 0 then ProverRounds.FixVar(K, job.meta, old(Left()), old(mles), challenge.value)
                else old(mles)
      ensures ValidTables(job, arities, Left(), mles)
      ensures forall i :: 0 <= i < |job.terms| ==> Computable(job, mles, job.terms[i].product)
      ensures message.Some? <==> Supported(job.terms)
      ensures message.Some? ==> message.value == MessageUpTo(K, job, isMainWorker, Left(), mles, |job.terms|)
    {
      hide Pow2, CurrentArity, Fold, CeilLog2, ProverRounds.FixVar, MessageUpTo, Computable, ValidProduct,
           CharacteristicAbove;
      forall i | 0 <= i < |mles| ensures |mles[i]| > 0 { Pow2Positive(CurrentArity(job.meta[i], arities[i], Left())); }
      if round > 0 {
        challenges := challenges + [challenge.value];
        FixVarValid(K, job, arities, Left(), mles, challenge.value);
        FixVar(challenge.value);
      }
      round := round + 1;
      forall i | 0 <= i < |job.terms| ensures Computable(job, mles, job.terms[i].product) {
        ProductComputable(job, arities, Left(), mles, job.terms[i].product);
      }
      message := Message();
    }

    method Message() returns (res: Option<seq<T>>)
      requires Lawful(K) && CharacteristicAbove(K, job.maxDegree)
      requires 0 < round <= maxNumVariables && |job.meta| == |mles|
      requires forall i :: 0 <= i < |job.terms| ==> Computable(job, mles, job.terms[i].product)
      ensures res.Some? <==> Supported(job.terms)
      ensures res.Some? ==> res.value == MessageUpTo(K, job, isMainWorker, ExpectedNumVarsAtRound(), mles, |job.terms|)
    {
      hide Computable, TermMessage, MessageUpTo;
      var message := Zeros(K, job.maxDegree + 1);
      NoTermsMessage(K, job, isMainWorker, ExpectedNumVarsAtRound(), mles);
      for i := 0 to |job.terms|
        invariant message == MessageUpTo(K, job, isMainWorker, ExpectedNumVarsAtRound(), mles, i)
        invariant forall j :: 0 <= j < i ==> |job.terms[j].product| <= MAX_FACTORS
      {
        MessageStep(K, job, isMainWorker, ExpectedNumVarsAtRound(), mles, i);
        var uni := TermValues(job.terms[i]);
        if uni.None? {
          return None;
        }
        message := AddAssign(K, message, uni.value);
      }
      res := Some(message);
    }
  }

  lemma NoTermsMessage<T>(K: Field<T>, job: Job<T>, isMain: bool, expected: nat, mles: seq<seq<T>>)
    requires |mles| == |job.meta|
    ensures MessageUpTo(K, job, isMain, expected, mles, 0) == Zeros(K, job.maxDegree + 1)
  {
  }

  lemma MessageStep<T>(K: Field<T>, job: Job<T>, isMain: bool, expected: nat, mles: seq<seq<T>>, i: nat)
    requires |mles| == |job.meta| && i < |job.terms|
    requires forall j :: 0 <= j < |job.terms| ==> Computable(job, mles, job.terms[j].product)
    ensures Computable(job, mles, job.terms[i].product)
    ensures MessageUpTo(K, job, isMain, expected, mles, i + 1)
         == Plus(K, MessageUpTo(K, job, isMain, expected, mles, i),
                 TermMessage(K, job, isMain, expected, mles, job.terms[i]))
  {
  }

  /** `AdditiveVec += other`: entrywise, over the common length. */
  method AddAssign<T>(K: Field<T>, acc: seq<T>, other: seq<T>) returns (r: seq<T>)
    ensures |r| == |acc|
    ensures forall j :: 0 <= j < |acc| ==> r[j] == if j < |other| then K.Add(acc[j], other[j]) else acc[j]
    ensures |acc| == |other| ==> r == Plus(K, acc, other)
  {
    r := acc;
    for i := 0 to if |acc| <= |other| then |acc| else |other|
      invariant |r| == |acc|
      invariant forall j :: 0 <= j < |acc| ==> r[j] == if j < i then K.Add(acc[j], other[j]) else acc[j]
    {
      r := r[i := K.Add(r[i], other[i])];
    }
  }
}

/** Completeness of the sumcheck protocol, with the exact condition under which the honest proof is accepted. */
module Completeness {
  import opened HypercubeSums
  import opened Sums
  import opened Wrappers
  import opened Fields
  import opened Polynomials
  import opened Interpolation
  import opened Extrapolation
  import opened Registration
  import opened Merge
  import opened ProverRuns
  import opened Transcripts
  import opened Verifier
  import opened Sumcheck

  // ---------- the honest proof ----------

  /** The messages of the distributed prover from a transcript and the challenges drawn so far. */
  function HonestProof<T(!new)>(K: Field<T>, inst: Instance<T>, logThreads: nat, oracle: seq<Entry<T>> -> T,
                                log: seq<Entry<T>>, challenges: seq<T>): (r: seq<seq<T>>)
    requires Lawful(K) && ValidInstance(inst) && logThreads <= inst.numVars && Wide(inst, logThreads)
    requires |challenges| <= inst.numVars
    ensures |r| == inst.numVars - |challenges|
    decreases inst.numVars - |challenges|
  {
    if |challenges| == inst.numVars then []
    else
      hide DistributedMessage, Wide, ValidInstance;
      var message := DistributedMessage(K, inst, logThreads, challenges);
      [message] + HonestProof(K, inst, logThreads, oracle, AfterRound(log, message),
                              challenges + [oracle(Absorbed(log, message))])
  }

  lemma {:induction false} HonestProofAt<T(!new)>(K: Field<T>, inst: Instance<T>, logThreads: nat,
                                                  oracle: seq<Entry<T>> -> T,
                                                  log: seq<Entry<T>>, challenges: seq<T>, k: nat)
    requires Lawful(K) && ValidInstance(inst) && logThreads <= inst.numVars && Wide(inst, logThreads)
    requires |challenges| + k < inst.numVars
    ensures var proof := HonestProof(K, inst, logThreads, oracle, log, challenges);
            proof[k] == DistributedMessage(K, inst, logThreads, challenges + Challenges(oracle, log, proof)[..k])
    decreases k
  {
    hide DistributedMessage, Wide, ValidInstance, Absorbed, AfterRound;
    var proof := HonestProof(K, inst, logThreads, oracle, log, challenges);
    if k == 0 {
      assert challenges + Challenges(oracle, log, proof)[..0] == challenges;
    } else {
      var message := DistributedMessage(K, inst, logThreads, challenges);
      var c := oracle(Absorbed(log, message));
      HonestProofAt(K, inst, logThreads, oracle, AfterRound(log, message), challenges + [c], k - 1);
      var rest := Challenges(oracle, AfterRound(log, message), proof[1..]);
      assert Challenges(oracle, log, proof) == [c] + rest;
      assert challenges + ([c] + rest)[..k] == (challenges + [c]) + rest[..k - 1];
    }
  }

  // ---------- one round ----------

  lemma HonestRound<T(!new)>(K: Field<T>, inst: Instance<T>, logThreads: nat, challenges: seq<T>, r: T)
    requires Lawful(K) && ValidInstance(inst) && logThreads <= inst.numVars && Wide(inst, logThreads)
    requires |challenges| < inst.numVars && CharacteristicAbove(K, inst.maxDegree)
    ensures var message := DistributedMessage(K, inst, logThreads, challenges);
            && (inst.maxDegree > 0 ==> K.Add(message[0], message[1]) == TrueClaim(K, inst, challenges))
            && (ExtrapolateUniPoly(K, message, r).Some? <==>
                1 <= inst.maxDegree <= 4 && !IsNode(K, inst.maxDegree + 1, r))
            && (ExtrapolateUniPoly(K, message, r).Some? ==>
                  ExtrapolateUniPoly(K, message, r).value == TrueClaim(K, inst, challenges + [r]))
  {
    hide DistributedMessage, Wide, ValidInstance, TrueClaim, TruePoly, ExtrapolateUniPoly, Eval, Interpolant;
    var message := DistributedMessage(K, inst, logThreads, challenges);
    HonestValues(K, inst, logThreads, challenges);
    TruePolyExact(K, inst, challenges, r);
    InterpolantUnique(K, message, TruePoly(K, inst, challenges), r);
    ExtrapolateUniPolyExact(K, message, r);
    NumOne(K);
    if inst.maxDegree > 0 {
      PassesAt(K, TruePoly(K, inst, challenges), message, 0);
      PassesAt(K, TruePoly(K, inst, challenges), message, 1);
    }
  }

  lemma PassesAt<T>(K: Field<T>, p: seq<T>, ys: seq<T>, j: nat)
    requires PassesThrough(K, p, ys) && j < |ys|
    ensures Eval(K, p, K.Num(j)) == ys[j]
  {
  }

  ghost predicate AllOffNodes<T>(K: Field<T>, maxDegree: nat, challenges: seq<T>) {
    forall k :: 0 <= k < |challenges| ==> !IsNode(K, maxDegree + 1, challenges[k])
  }

  /** When round k of the honest proof passes. */
  ghost predicate RoundIsFine<T>(K: Field<T>, maxDegree: nat, challenges: seq<T>, sum: T, claim: T, k: nat)
    requires k < |challenges|
  {
    && 1 <= maxDegree <= 4 && !IsNode(K, maxDegree + 1, challenges[k])
    && (if k == 0 then sum == claim else !IsNode(K, maxDegree + 1, challenges[k - 1]))
  }

  lemma RoundAccepted<T(!new)>(K: Field<T>, inst: Instance<T>, logThreads: nat, proof: seq<seq<T>>, challenges: seq<T>,
                               sum: T, k: nat)
    requires Lawful(K) && ValidInstance(inst) && logThreads <= inst.numVars && Wide(inst, logThreads)
    requires CharacteristicAbove(K, inst.maxDegree) && k < |challenges| == |proof| == inst.numVars
    requires proof[k] == DistributedMessage(K, inst, logThreads, challenges[..k])
    requires k > 0 ==> proof[k - 1] == DistributedMessage(K, inst, logThreads, challenges[..k - 1])
    ensures Expected(K, proof, challenges, sum, k + 1).Some? <==>
              1 <= inst.maxDegree <= 4 && !IsNode(K, inst.maxDegree + 1, challenges[k])
    ensures Expected(K, proof, challenges, sum, k + 1).Some? ==>
              Expected(K, proof, challenges, sum, k + 1).value == TrueClaim(K, inst, challenges[..k + 1])
    ensures RoundPasses(K, inst.maxDegree, proof, challenges, sum, k) <==>
            RoundIsFine(K, inst.maxDegree, challenges, sum, TrueClaim(K, inst, []), k)
  {
    hide DistributedMessage, Wide, ValidInstance, TrueClaim, ExtrapolateUniPoly, IsNode, CharacteristicAbove;
    HonestRound(K, inst, logThreads, challenges[..k], challenges[k]);
    assert challenges[..k] + [challenges[k]] == challenges[..k + 1];
    if k > 0 {
      HonestRound(K, inst, logThreads, challenges[..k - 1], challenges[k - 1]);
      assert challenges[..k - 1] + [challenges[k - 1]] == challenges[..k];
    } else {
      assert challenges[..0] == [];
    }
  }

  lemma VerifyIs<T>(K: Field<T>, oracle: seq<Entry<T>> -> T, log: seq<Entry<T>>, sum: T, proof: seq<seq<T>>,
                    numVars: nat, maxDegree: nat)
    requires |proof| == numVars > 0
    ensures Verify(K, oracle, log, sum, proof, numVars, maxDegree)
         == Subclaim(K, maxDegree, proof, Challenges(oracle, log + Opening(numVars, maxDegree), proof), sum)
  {
    hide Subclaim, Challenges;
    assert proof[..numVars] == proof;
  }

  lemma HonestRoundPasses<T(!new)>(K: Field<T>, inst: Instance<T>, logThreads: nat, oracle: seq<Entry<T>> -> T,
                                   start: seq<Entry<T>>, sum: T, k: nat)
    requires Lawful(K) && ValidInstance(inst) && logThreads <= inst.numVars && Wide(inst, logThreads)
    requires CharacteristicAbove(K, inst.maxDegree) && k < inst.numVars
    ensures var proof := HonestProof(K, inst, logThreads, oracle, start, []);
            var challenges := Challenges(oracle, start, proof);
            RoundPasses(K, inst.maxDegree, proof, challenges, sum, k) <==>
            RoundIsFine(K, inst.maxDegree, challenges, sum, TrueClaim(K, inst, []), k)
  {
    hide *;
    var proof := HonestProof(K, inst, logThreads, oracle, start, []);
    var challenges := Challenges(oracle, start, proof);
    HonestProofAt(K, inst, logThreads, oracle, start, [], k);
    assert [] + challenges[..k] == challenges[..k];
    if k > 0 {
      HonestProofAt(K, inst, logThreads, oracle, start, [], k - 1);
      assert [] + challenges[..k - 1] == challenges[..k - 1];
    }
    RoundAccepted(K, inst, logThreads, proof, challenges, sum, k);
  }

  lemma HonestAccepted<T(!new)>(K: Field<T>, inst: Instance<T>, logThreads: nat, oracle: seq<Entry<T>> -> T,
                                start: seq<Entry<T>>, sum: T)
    requires Lawful(K) && ValidInstance(inst) && inst.numVars > 0 && logThreads <= inst.numVars &&
               Wide(inst, logThreads)
    requires CharacteristicAbove(K, inst.maxDegree)
    ensures var proof := HonestProof(K, inst, logThreads, oracle, start, []);
            var challenges := Challenges(oracle, start, proof);
            Subclaim(K, inst.maxDegree, proof, challenges, sum).Some? <==>
              sum == TrueClaim(K, inst, []) && 1 <= inst.maxDegree <= 4 && AllOffNodes(K, inst.maxDegree, challenges)
  {
    HasVariables(inst);
    hide *;
    var proof := HonestProof(K, inst, logThreads, oracle, start, []);
    var challenges := Challenges(oracle, start, proof);
    forall k: nat | k < |proof|
      ensures RoundPasses(K, inst.maxDegree, proof, challenges, sum, k) <==>
              RoundIsFine(K, inst.maxDegree, challenges, sum, TrueClaim(K, inst, []), k)
    {
      HonestRoundPasses(K, inst, logThreads, oracle, start, sum, k);
    }
    AllRoundsPass(K, inst.maxDegree, proof, challenges, sum, TrueClaim(K, inst, []));
  }

  /** The rounds pass together exactly under the conditions of the single rounds. */
  lemma AllRoundsPass<T>(K: Field<T>, d: nat, proof: seq<seq<T>>, challenges: seq<T>, sum: T, claim: T)
    requires |proof| == |challenges| > 0
    requires forall k: nat :: k < |proof| ==>
               (RoundPasses(K, d, proof, challenges, sum, k) <==> RoundIsFine(K, d, challenges, sum, claim, k))
    ensures Subclaim(K, d, proof, challenges, sum).Some? <==>
              sum == claim && 1 <= d <= 4 && AllOffNodes(K, d, challenges)
  {
    hide IsNode, RoundPasses, Expected;
    assert RoundPasses(K, d, proof, challenges, sum, 0) <==> RoundIsFine(K, d, challenges, sum, claim, 0);
    if Subclaim(K, d, proof, challenges, sum).Some? {
      forall k | 0 <= k < |challenges| ensures !IsNode(K, d + 1, challenges[k]) {
        assert RoundPasses(K, d, proof, challenges, sum, k);
      }
    } else {
      var i :| 0 <= i < |proof| && !RoundPasses(K, d, proof, challenges, sum, i);
      assert !RoundIsFine(K, d, challenges, sum, claim, i);
    }
  }

  /** Completeness, with its exact condition: the proof of the distributed prover, for any number of workers and
      any oracle, is accepted exactly for the true sum, degrees 1 to 4 and challenges off the nodes; the point of
      the subclaim is the list of challenges, and its value is the polynomial at that point. */
  lemma CompletenessExact<T(!new)>(K: Field<T>, inst: Instance<T>, logThreads: nat, oracle: seq<Entry<T>> -> T,
                                   log: seq<Entry<T>>, sum: T)
    requires Lawful(K) && ValidInstance(inst) && logThreads <= inst.numVars && Wide(inst, logThreads)
    requires CharacteristicAbove(K, inst.maxDegree)
    ensures var start := log + Opening(inst.numVars, inst.maxDegree);
            var proof := HonestProof(K, inst, logThreads, oracle, start, []);
            var challenges := Challenges(oracle, start, proof);
            var verdict := Verify(K, oracle, log, sum, proof, inst.numVars, inst.maxDegree);
            && (verdict.Some? <==>
                  sum == TrueClaim(K, inst, []) && 1 <= inst.maxDegree <= 4 &&
                      AllOffNodes(K, inst.maxDegree, challenges))
            && (verdict.Some? ==> verdict.value == SubClaim(challenges, EvaluateSlow(K, inst, challenges)))
  {
    HasVariables(inst);
    hide *;
    var start := log + Opening(inst.numVars, inst.maxDegree);
    var proof := HonestProof(K, inst, logThreads, oracle, start, []);
    VerifyIs(K, oracle, log, sum, proof, inst.numVars, inst.maxDegree);
    HonestAccepted(K, inst, logThreads, oracle, start, sum);
    if Subclaim(K, inst.maxDegree, proof, Challenges(oracle, start, proof), sum).Some? {
      HonestLastClaim(K, inst, logThreads, oracle, start, sum);
    }
  }

  lemma HasVariables<T>(inst: Instance<T>)
    requires ValidInstance(inst)
    ensures inst.numVars > 0
  {
  }

  lemma HonestLastClaim<T(!new)>(K: Field<T>, inst: Instance<T>, logThreads: nat, oracle: seq<Entry<T>> -> T,
                                 start: seq<Entry<T>>, sum: T)
    requires Lawful(K) && ValidInstance(inst) && logThreads <= inst.numVars && Wide(inst, logThreads)
    requires CharacteristicAbove(K, inst.maxDegree)
    requires var proof := HonestProof(K, inst, logThreads, oracle, start, []);
             Subclaim(K, inst.maxDegree, proof, Challenges(oracle, start, proof), sum).Some?
    ensures var proof := HonestProof(K, inst, logThreads, oracle, start, []);
            var challenges := Challenges(oracle, start, proof);
            Subclaim(K, inst.maxDegree, proof, challenges, sum).value
                == SubClaim(challenges, EvaluateSlow(K, inst, challenges))
  {
    hide DistributedMessage, Wide, ExtrapolateUniPoly, IsNode, CharacteristicAbove, HonestProof, Challenges, TrueClaim,
         EvaluateSlow;
    var proof := HonestProof(K, inst, logThreads, oracle, start, []);
    var challenges := Challenges(oracle, start, proof);
    var n := inst.numVars;
    assert RoundPasses(K, inst.maxDegree, proof, challenges, sum, n - 1);
    HonestProofAt(K, inst, logThreads, oracle, start, [], n - 1);
    assert [] + challenges[..n - 1] == challenges[..n - 1];
    HonestRound(K, inst, logThreads, challenges[..n - 1], challenges[n - 1]);
    assert challenges[..n - 1] + [challenges[n - 1]] == challenges;
    LastTrueClaim(K, inst, challenges);
  }

  lemma LastTrueClaim<T(!new)>(K: Field<T>, inst: Instance<T>, point: seq<T>)
    requires Lawful(K) && ValidInstance(inst) && |point| == inst.numVars
    ensures TrueClaim(K, inst, point) == EvaluateSlow(K, inst, point)
  {
    hide PolySum, FoldTables, Padded, ValidInstance, EvaluateSlow;
    FullyFolded(K, inst, point);
    assert Pow2(inst.numVars - |point|) == 1;
  }

  // ---------- honest proofs that are refused ----------

  /** One table with one variable, to the given power. */
  function PowerInstance<T>(K: Field<T>, degree: nat): (inst: Instance<T>)
    requires degree > 0
    ensures ValidInstance(inst) && Wide(inst, 0) && inst.numVars == 1 && inst.maxDegree == degree
  {
    var product: seq<nat> := seq(degree, _ => 0);
    var inst := Instance([Term(K.one, product)], [[K.zero, K.one]], [1], degree, 1);
    assert Pow2(1) == 2;
    assert EqualArities(inst, inst.terms[0].product);
    assert inst.arities[0] >= 0;
    inst
  }

  /** The honest proof of a true sum is refused for degree 5 (and above), whatever the challenges are. */
  lemma HighDegreeRefused<T(!new)>(K: Field<T>, degree: nat, oracle: seq<Entry<T>> -> T, log: seq<Entry<T>>)
    requires Lawful(K) && degree >= 5 && CharacteristicAbove(K, degree)
    ensures var inst := PowerInstance(K, degree);
            var proof := HonestProof(K, inst, 0, oracle, log + Opening(1, degree), []);
            Verify(K, oracle, log, TrueClaim(K, inst, []), proof, 1, degree).None?
  {
    var inst := PowerInstance(K, degree);
    hide *;
    CompletenessExact(K, inst, 0, oracle, log, TrueClaim(K, inst, []));
  }

  /** The honest proof of a true sum of degree 1 is refused when the challenge is zero, which is a node. */
  lemma NodeChallengeRefused<T(!new)>(K: Field<T>, log: seq<Entry<T>>)
    requires Lawful(K) && CharacteristicAbove(K, 1)
    ensures var inst, oracle := PowerInstance(K, 1), (_: seq<Entry<T>>) => K.zero;
            var proof := HonestProof(K, inst, 0, oracle, log + Opening(1, 1), []);
            Verify(K, oracle, log, TrueClaim(K, inst, []), proof, 1, 1).None?
  {
    var inst, oracle := PowerInstance(K, 1), (_: seq<Entry<T>>) => K.zero;
    ZeroIsNode(K);
    hide PowerInstance, ValidInstance, Wide, HonestProof, TrueClaim, Verify, CharacteristicAbove, IsNode, EvaluateSlow;
    var start := log + Opening(1, 1);
    var proof := HonestProof(K, inst, 0, oracle, start, []);
    CompletenessExact(K, inst, 0, oracle, log, TrueClaim(K, inst, []));
    assert Challenges(oracle, start, proof)[0] == K.zero;
  }

  lemma ZeroIsNode<T>(K: Field<T>)
    ensures IsNode(K, 2, K.zero)
  {
    assert K.Num(0) == K.zero;
  }
}

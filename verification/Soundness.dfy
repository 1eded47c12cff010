/** Soundness of the sumcheck verifier against an arbitrary prover, in its deterministic form. */
module Soundness {
  import opened Wrappers
  import opened Fields
  import opened Polynomials
  import opened Interpolation
  import opened Extrapolation
  import opened Registration
  import opened Transcripts
  import opened Verifier
  import opened Sumcheck
  import opened Completeness

  /** The polynomial sent in a round minus the true round polynomial.  Both are fixed before the challenge of the
      round is drawn. */
  function Gap<T>(K: Field<T>, inst: Instance<T>, message: seq<T>, challenges: seq<T>): (g: seq<T>)
    requires ValidInstance(inst) && |challenges| < inst.numVars && |message| == inst.maxDegree + 1
    ensures |g| == inst.maxDegree + 1
  {
    Difference(K, Interpolant(K, message), TruePoly(K, inst, challenges))
  }

  lemma AcceptedRound<T(!new)>(K: Field<T>, inst: Instance<T>, polynomials: seq<seq<T>>, challenges: seq<T>, sum: T,
                               k: nat)
    requires Lawful(K) && ValidInstance(inst) && CharacteristicAbove(K, inst.maxDegree)
    requires k < |polynomials| == |challenges| == inst.numVars
    requires RoundPasses(K, inst.maxDegree, polynomials, challenges, sum, k)
    ensures var p := Interpolant(K, polynomials[k]);
            && Expected(K, polynomials, challenges, sum, k) == Some(K.Add(Eval(K, p, K.zero), Eval(K, p, K.one)))
            && Expected(K, polynomials, challenges, sum, k + 1) == Some(Eval(K, p, challenges[k]))
  {
    hide ExtrapolateUniPoly, Eval, Interpolant, ValidInstance;
    ExtrapolateUniPolyExact(K, polynomials[k], challenges[k]);
    InterpolantUnique(K, polynomials[k], [], K.zero);
    PassesAt(K, Interpolant(K, polynomials[k]), polynomials[k], 0);
    PassesAt(K, Interpolant(K, polynomials[k]), polynomials[k], 1);
    NumOne(K);
  }

  /** From a round with a wrong claim on, some challenge must repair it. */
  lemma {:induction false} RepairingRound<T(!new)>(K: Field<T>, inst: Instance<T>, polynomials: seq<seq<T>>,
                                                   challenges: seq<T>,
                                                   sum: T, i: nat) returns (k: nat)
    requires Lawful(K) && ValidInstance(inst) && CharacteristicAbove(K, inst.maxDegree)
    requires i < |polynomials| == |challenges| == inst.numVars
    requires forall j :: 0 <= j < inst.numVars ==> RoundPasses(K, inst.maxDegree, polynomials, challenges, sum, j)
    requires Expected(K, polynomials, challenges, sum, i) != Some(TrueClaim(K, inst, challenges[..i]))
    requires Expected(K, polynomials, challenges, sum, inst.numVars) == Some(TrueClaim(K, inst, challenges))
    ensures i <= k < inst.numVars
    ensures Expected(K, polynomials, challenges, sum, k) != Some(TrueClaim(K, inst, challenges[..k]))
    ensures Expected(K, polynomials, challenges, sum, k + 1) == Some(TrueClaim(K, inst, challenges[..k + 1]))
    decreases inst.numVars - i
  {
    hide Expected, TrueClaim, RoundPasses, ValidInstance;
    if Expected(K, polynomials, challenges, sum, i + 1) == Some(TrueClaim(K, inst, challenges[..i + 1])) {
      k := i;
    } else {
      assert challenges[..inst.numVars] == challenges;
      k := RepairingRound(K, inst, polynomials, challenges, sum, i + 1);
    }
  }

  lemma GapIsRoot<T(!new)>(K: Field<T>, inst: Instance<T>, polynomials: seq<seq<T>>, challenges: seq<T>, sum: T, k: nat)
    requires Lawful(K) && ValidInstance(inst) && CharacteristicAbove(K, inst.maxDegree)
    requires k < |polynomials| == |challenges| == inst.numVars
    requires RoundPasses(K, inst.maxDegree, polynomials, challenges, sum, k)
    requires Expected(K, polynomials, challenges, sum, k) != Some(TrueClaim(K, inst, challenges[..k]))
    requires Expected(K, polynomials, challenges, sum, k + 1) == Some(TrueClaim(K, inst, challenges[..k + 1]))
    ensures |polynomials[k]| == inst.maxDegree + 1
    ensures !IsZero(K, Gap(K, inst, polynomials[k], challenges[..k]))
    ensures Eval(K, Gap(K, inst, polynomials[k], challenges[..k]), challenges[k]) == K.zero
  {
    hide Eval, Interpolant, TruePoly, TrueClaim, Expected, ValidInstance, IsZero, Difference;
    var c, r := challenges[..k], challenges[k];
    var p, q := Interpolant(K, polynomials[k]), TruePoly(K, inst, c);
    var g := Difference(K, p, q);
    AcceptedRound(K, inst, polynomials, challenges, sum, k);
    TruePolyExact(K, inst, c, r);
    assert c + [r] == challenges[..k + 1];
    EvalDifference(K, p, q, r);
    SubSelf(K, Eval(K, q, r));
    if IsZero(K, g) {
      EvalZeros(K, g, K.zero);
      EvalZeros(K, g, K.one);
      EvalDifference(K, p, q, K.zero);
      EvalDifference(K, p, q, K.one);
      SubZeroEqual(K, Eval(K, p, K.zero), Eval(K, q, K.zero));
      SubZeroEqual(K, Eval(K, p, K.one), Eval(K, q, K.one));
      assert false;
    }
  }

  /** The polynomial of round k is fixed before the challenge of the round is drawn: the history of that challenge
      determines the opening and all messages so far, and whatever the oracle answers to it, the challenges before, and
      with them the polynomial, stay the same while the answer becomes the challenge. */
  ghost predicate FixedBefore<T(!new)>(K: Field<T>, inst: Instance<T>, oracle: seq<Entry<T>> -> T, log: seq<Entry<T>>,
                                       proof: seq<seq<T>>, k: nat)
    requires ValidInstance(inst) && k < inst.numVars && k < |proof| && |proof[k]| == inst.maxDegree + 1
  {
    var h, start := History(log, inst.numVars, inst.maxDegree, proof[..k + 1]),
        log + Opening(inst.numVars, inst.maxDegree);
    && (forall n: nat, d: nat, ms: seq<seq<T>> ::
          ms != [] && History(log, n, d, ms) == h ==> n == inst.numVars && d == inst.maxDegree && ms == proof[..k + 1])
    && (forall value: T ::
          var other := Reprogrammed(oracle, h, value);
          && Challenges(other, start, proof[..k + 1])[k] == value
          && Gap(K, inst, proof[k], Challenges(other, start, proof[..k]))
             == Gap(K, inst, proof[k], Challenges(oracle, start, proof[..k])))
  }

  lemma EachRoundFixedBefore<T(!new)>(K: Field<T>, inst: Instance<T>, oracle: seq<Entry<T>> -> T, log: seq<Entry<T>>,
                                      proof: seq<seq<T>>, k: nat)
    requires ValidInstance(inst) && k < inst.numVars && k < |proof| && |proof[k]| == inst.maxDegree + 1
    ensures FixedBefore(K, inst, oracle, log, proof, k)
  {
    hide Gap, Challenges, History, ValidInstance;
    var n, d, ms := inst.numVars, inst.maxDegree, proof[..k + 1];
    var h, start := History(log, n, d, ms), log + Opening(n, d);
    forall n': nat, d': nat, ns: seq<seq<T>> | ns != [] && History(log, n', d', ns) == h
      ensures n' == n && d' == d && ns == ms
    {
      HistoryBinds(log, n', d', ns, n, d, ms);
    }
    assert ms[..k] == proof[..k] && ms[..k + 1] == ms;
    ChallengesPrefix(oracle, start, ms, k);
    forall value: T
      ensures Challenges(Reprogrammed(oracle, h, value), start, ms)[k] == value
      ensures Challenges(Reprogrammed(oracle, h, value), start, proof[..k]) == Challenges(oracle, start, proof[..k])
    {
      ChallengeIsFree(oracle, log, n, d, ms, k, value);
      ChallengesPrefix(Reprogrammed(oracle, h, value), start, ms, k);
    }
  }

  /** A wrong sum that is accepted together with a correct final evaluation needs a round whose challenge is a root of
      a non-zero polynomial of degree at most maxDegree that was fixed before the challenge; at most maxDegree
      challenges of that round are roots. */
  lemma SoundnessExact<T(!new)>(K: Field<T>, inst: Instance<T>, oracle: seq<Entry<T>> -> T, log: seq<Entry<T>>, sum: T,
                                proof: seq<seq<T>>) returns (k: nat)
    requires Lawful(K) && ValidInstance(inst) && CharacteristicAbove(K, inst.maxDegree)
    requires Verify(K, oracle, log, sum, proof, inst.numVars, inst.maxDegree).Some?
    requires var claim := Verify(K, oracle, log, sum, proof, inst.numVars, inst.maxDegree).value;
             |claim.point| == inst.numVars ==> claim.expectedEvaluation == EvaluateSlow(K, inst, claim.point)
    requires sum != TrueClaim(K, inst, [])
    ensures var challenges := Verify(K, oracle, log, sum, proof, inst.numVars, inst.maxDegree).value.point;
            && k < inst.numVars == |challenges| && k < |proof| && |proof[k]| == inst.maxDegree + 1
            && challenges[..k] == Challenges(oracle, log + Opening(inst.numVars, inst.maxDegree), proof[..k])
            && challenges[k] == oracle(History(log, inst.numVars, inst.maxDegree, proof[..k + 1]))
            && FixedBefore(K, inst, oracle, log, proof, k)
            && !IsZero(K, Gap(K, inst, proof[k], challenges[..k]))
            && Eval(K, Gap(K, inst, proof[k], challenges[..k]), challenges[k]) == K.zero
            && (forall roots: set<T> ::
                (forall x :: x in roots ==> Eval(K, Gap(K, inst, proof[k], challenges[..k]), x) == K.zero)
                  ==> |roots| <= inst.maxDegree)
  {
    hide Expected, RoundPasses, TrueClaim, EvaluateSlow, Eval, Gap, IsZero, Challenges, FixedBefore, History;
    var n := inst.numVars;
    var start, polynomials := log + Opening(n, inst.maxDegree), proof[..n];
    var challenges := Challenges(oracle, start, polynomials);
    LastExpected(K, inst, polynomials, challenges, sum);
    LastTrueClaim(K, inst, challenges);
    assert challenges[..0] == [];
    k := RepairingRound(K, inst, polynomials, challenges, sum, 0);
    GapIsRoot(K, inst, polynomials, challenges, sum, k);
    ChallengesPrefix(oracle, start, polynomials, k);
    assert polynomials[..k] == proof[..k] && polynomials[..k + 1] == proof[..k + 1];
    ChallengeAt(oracle, log, n, inst.maxDegree, polynomials, k);
    EachRoundFixedBefore(K, inst, oracle, log, proof, k);
    forall roots: set<T> | forall x :: x in roots ==> Eval(K, Gap(K, inst, proof[k], challenges[..k]), x) == K.zero
      ensures |roots| <= inst.maxDegree
    {
      if |roots| > inst.maxDegree {
        TooManyRoots(K, Gap(K, inst, proof[k], challenges[..k]), roots);
        assert false;
      }
    }
  }

  lemma LastExpected<T>(K: Field<T>, inst: Instance<T>, polynomials: seq<seq<T>>, challenges: seq<T>, sum: T)
    requires |polynomials| == |challenges| == inst.numVars > 0
    requires Subclaim(K, inst.maxDegree, polynomials, challenges, sum).Some?
    ensures Expected(K, polynomials, challenges, sum, 0) == Some(sum)
    ensures Expected(K, polynomials, challenges, sum, inst.numVars)
         == Some(Subclaim(K, inst.maxDegree, polynomials, challenges, sum).value.expectedEvaluation)
  {
    assert RoundPasses(K, inst.maxDegree, polynomials, challenges, sum, inst.numVars - 1);
  }
}

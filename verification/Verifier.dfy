/** The sumcheck verifier: challenges are drawn round by round, and all checks are made at the end. */
module Verifier {
  import opened Wrappers
  import opened Fields
  import opened Extrapolation
  import opened Transcripts

  datatype SubClaim<T> = SubClaim(point: seq<T>, expectedEvaluation: T)

  /** The claim a round is checked against: the asserted sum, then every polynomial at its challenge. */
  function Expected<T(==)>(K: Field<T>, polynomials: seq<seq<T>>, challenges: seq<T>, sum: T, i: nat): Option<T>
    requires i <= |polynomials| == |challenges|
  {
    if i == 0 then Some(sum) else ExtrapolateUniPoly(K, polynomials[i - 1], challenges[i - 1])
  }

  /** Round i is in order: the right number of values, a challenge off the nodes, and P(0) + P(1) as claimed. */
  predicate RoundPasses<T(==)>(K: Field<T>, maxDegree: nat, polynomials: seq<seq<T>>, challenges: seq<T>, sum: T,
                               i: nat)
    requires i < |polynomials| == |challenges|
  {
    && |polynomials[i]| == maxDegree + 1 && Expected(K, polynomials, challenges, sum, i + 1).Some?
    && |polynomials[i]| >= 2
    && Expected(K, polynomials, challenges, sum, i) == Some(K.Add(polynomials[i][0], polynomials[i][1]))
  }

  /** The deferred checks; None is a panic. */
  function Subclaim<T(==)>(K: Field<T>, maxDegree: nat, polynomials: seq<seq<T>>, challenges: seq<T>,
                           sum: T): Option<SubClaim<T>>
    requires |polynomials| == |challenges|
  {
    if forall i :: 0 <= i < |polynomials| ==> RoundPasses(K, maxDegree, polynomials, challenges, sum, i)
    then
      assert |polynomials| > 0 ==> RoundPasses(K, maxDegree, polynomials, challenges, sum, |polynomials| - 1);
      Some(SubClaim(challenges, Expected(K, polynomials, challenges, sum, |polynomials|).value))
    else None
  }

  /** `verify`; None is a panic. */
  function Verify<T(==)>(K: Field<T>, oracle: seq<Entry<T>> -> T, log: seq<Entry<T>>, sum: T, proof: seq<seq<T>>,
                         numVars: nat, maxDegree: nat): Option<SubClaim<T>>
  {
    if numVars == 0 then Some(SubClaim([], sum))
    else if |proof| < numVars then None
    else Subclaim(K, maxDegree, proof[..numVars],
                  Challenges(oracle, log + Opening(numVars, maxDegree), proof[..numVars]), sum)
  }

  class IOPVerifierState<T(==, !new)> {
    const K: Field<T>
    const numVars: nat
    const maxDegree: nat
    var round: nat
    var finished: bool
    var polynomialsReceived: seq<seq<T>>
    var challenges: seq<T>

    ghost predicate Valid()
      reads this
    {
      && 1 <= round <= numVars && |polynomialsReceived| == |challenges|
      && |challenges| == if finished then numVars else round - 1
    }

    /** `verifier_init` */
    constructor (K: Field<T>, numVars: nat, maxDegree: nat)
      requires numVars > 0
      ensures Valid() && !finished && polynomialsReceived == [] && challenges == []
      ensures this.K == K && this.numVars == numVars && this.maxDegree == maxDegree
    {
      this.K, this.numVars, this.maxDegree := K, numVars, maxDegree;
      round, finished, polynomialsReceived, challenges := 1, false, [], [];
    }

    method VerifyRoundAndUpdateState(message: seq<T>, transcript: Transcript<T>) returns (challenge: T)
      requires Valid() && !finished
      modifies this, transcript
      ensures Valid()
      ensures challenge == transcript.oracle(old(transcript.log) + [InternalRound])
      ensures transcript.log == old(transcript.log) + [InternalRound] + [Squeezed]
      ensures challenges == old(challenges) + [challenge] && polynomialsReceived == old(polynomialsReceived) + [message]
      ensures finished <==> old(round) == numVars
    {
      challenge := transcript.SampleAndAppendChallenge();
      challenges := challenges + [challenge];
      polynomialsReceived := polynomialsReceived + [message];
      if round == numVars {
        finished := true;
      } else {
        round := round + 1;
      }
    }

    /** The deferred checks on everything received. */
    method CheckAndGenerateSubclaim(assertedSum: T) returns (res: Option<SubClaim<T>>)
      requires Valid() && finished
      ensures res == Subclaim(K, maxDegree, polynomialsReceived, challenges, assertedSum)
    {
      hide ExtrapolateUniPoly;
      var expectedVec := [assertedSum];
      for i := 0 to |polynomialsReceived|
        invariant |expectedVec| == i + 1
        invariant forall j :: 0 <= j <= i ==>
                  Expected(K, polynomialsReceived, challenges, assertedSum, j) == Some(expectedVec[j])
        invariant forall j :: 0 <= j < i ==> |polynomialsReceived[j]| == maxDegree + 1 >= 2
      {
        var evaluations := polynomialsReceived[i];
        var value := ExtrapolateUniPoly(K, evaluations, challenges[i]);
        if |evaluations| != maxDegree + 1 || value.None? {
          assert !RoundPasses(K, maxDegree, polynomialsReceived, challenges, assertedSum, i);
          return None;
        }
        ExtrapolatedSize(K, evaluations, challenges[i]);
        expectedVec := expectedVec + [value.value];
      }
      for i := 0 to numVars
        invariant forall j :: 0 <= j < i ==> RoundPasses(K, maxDegree, polynomialsReceived, challenges, assertedSum, j)
      {
        var evaluations := polynomialsReceived[i];
        assert Expected(K, polynomialsReceived, challenges, assertedSum, i + 1).Some?;
        if K.Add(evaluations[0], evaluations[1]) != expectedVec[i] {
          assert !RoundPasses(K, maxDegree, polynomialsReceived, challenges, assertedSum, i);
          return None;
        }
      }
      res := Some(SubClaim(challenges, expectedVec[numVars]));
    }
  }

  lemma ExtrapolatedSize<T>(K: Field<T>, p: seq<T>, x: T)
    requires ExtrapolateUniPoly(K, p, x).Some?
    ensures 2 <= |p| <= 5
  {
  }

  lemma AcceptedShape<T>(K: Field<T>, oracle: seq<Entry<T>> -> T, log: seq<Entry<T>>, sum: T, proof: seq<seq<T>>,
                         numVars: nat, maxDegree: nat)
    requires numVars > 0 && Verify(K, oracle, log, sum, proof, numVars, maxDegree).Some?
    ensures |proof| >= numVars && |Verify(K, oracle, log, sum, proof, numVars, maxDegree).value.point| == numVars
    ensures forall i :: 0 <= i < numVars ==> |proof[i]| == maxDegree + 1
  {
    hide Expected;
    var polynomials := proof[..numVars];
    var challenges := Challenges(oracle, log + Opening(numVars, maxDegree), polynomials);
    forall i | 0 <= i < numVars ensures |proof[i]| == maxDegree + 1 {
      assert RoundPasses(K, maxDegree, polynomials, challenges, sum, i);
    }
  }

  /** `IOPVerifierState::verify` */
  method VerifyProof<T(==, !new)>(K: Field<T>, claimedSum: T, proof: seq<seq<T>>, numVars: nat, maxDegree: nat,
                                  transcript: Transcript<T>)
      returns (res: Option<SubClaim<T>>)
    modifies transcript
    ensures res == Verify(K, transcript.oracle, old(transcript.log), claimedSum, proof, numVars, maxDegree)
    ensures numVars == 0 ==> res == Some(SubClaim([], claimedSum))
    ensures |proof| < numVars ==> res.None?
    ensures numVars > 0 && res.Some? ==>
              |res.value.point| == numVars && forall i :: 0 <= i < numVars ==> |proof[i]| == maxDegree + 1
    ensures res.Some? ==>
              transcript.log == if numVars == 0 then old(transcript.log)
                                else AfterRounds(old(transcript.log) + Opening(numVars, maxDegree), proof[..numVars])
  {
    if numVars == 0 {
      return Some(SubClaim([], claimedSum));
    }
    transcript.AppendMessage(numVars);
    transcript.AppendMessage(maxDegree);
    ghost var start := transcript.log;
    assert start == old(transcript.log) + Opening(numVars, maxDegree);
    var state := new IOPVerifierState<T>(K, numVars, maxDegree);
    for i := 0 to numVars
      invariant fresh(state) && state.Valid() && state.K == K && state.numVars == numVars &&
                state.maxDegree == maxDegree
      invariant (i < numVars ==> !state.finished && state.round == i + 1) && (i == numVars ==> state.finished)
      invariant i <= |proof| && state.polynomialsReceived == proof[..i]
      invariant state.challenges == Challenges(transcript.oracle, start, proof[..i])
      invariant transcript.log == AfterRounds(start, proof[..i])
    {
      if i >= |proof| {
        return None;
      }
      assert proof[..i + 1] == proof[..i] + [proof[i]];
      ChallengesSnoc(transcript.oracle, start, proof[..i], proof[i]);
      AfterRoundsSnoc(start, proof[..i], proof[i]);
      transcript.AppendFieldElementExts(proof[i]);
      var challenge := state.VerifyRoundAndUpdateState(proof[i], transcript);
    }
    res := state.CheckAndGenerateSubclaim(claimedSum);
    if res.Some? {
      AcceptedShape(K, transcript.oracle, old(transcript.log), claimedSum, proof, numVars, maxDegree);
    }
  }

  /** Two proofs that differ first in round k: the verifier may draw any two challenges for them in that round. */
  lemma VerifierBinds<T>(log: seq<Entry<T>>, numVars: nat, maxDegree: nat, proof: seq<seq<T>>, other: seq<seq<T>>,
                         k: nat, x: T, y: T) returns (oracle: seq<Entry<T>> -> T)
    requires k < numVars <= |proof| && numVars <= |other| && proof[..k] == other[..k] && proof[k] != other[k]
    ensures var start := log + Opening(numVars, maxDegree);
            && Challenges(oracle, start, proof[..numVars])[k] == x &&
                Challenges(oracle, start, other[..numVars])[k] == y
            && Challenges(oracle, start, proof[..numVars])[..k] == Challenges(oracle, start, other[..numVars])[..k]
  {
    hide Challenges;
    var start := log + Opening(numVars, maxDegree);
    var ms, ns := proof[..numVars], other[..numVars];
    assert ms[..k + 1][k] == proof[k] && ns[..k + 1][k] == other[k];
    oracle := ChallengesIndependent(log, numVars, maxDegree, ms, numVars, maxDegree, ns, k, x, y);
    ChallengesPrefix(oracle, start, ms, k);
    ChallengesPrefix(oracle, start, ns, k);
    assert ms[..k] == proof[..k] == other[..k] == ns[..k];
  }
}

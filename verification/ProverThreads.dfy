/** The loops of the prover over its mutable state: one thread of the first phase for the challenges it receives,
    and the second phase with the main transcript. */
module ProverThreads {
  import opened Wrappers
  import opened Fields
  import opened Sums
  import opened Interpolation
  import opened Extrapolation
  import opened Multilinear
  import opened HypercubeSums
  import opened SplitTables
  import opened RoundEvaluator
  import opened ProverRounds
  import opened DistributedProver
  import opened ProverPhases
  import opened ProverState
  import opened Registration
  import opened Merge
  import opened ProverRuns
  import opened Transcripts
  import opened ConcurrentProver

  /** What thread w holds after the given challenges. */
  ghost function ThreadTables<T>(K: Field<T>, job: Job<T>, arities: seq<nat>, left: nat, workers: seq<seq<seq<T>>>,
                                 challenges: seq<T>, w: nat): (r: seq<seq<T>>)
    requires System(job, arities, left, workers) && |challenges| <= left && w < |workers|
    ensures ValidJob(job, arities) && ValidTables(job, arities, left - |challenges|, r)
  {
    hide RunWorkers, ValidJob, ValidTables;
    RunWorkers(K, job, arities, left, workers, challenges)[w]
  }

  lemma ThreadStep<T>(K: Field<T>, job: Job<T>, arities: seq<nat>, left: nat, workers: seq<seq<seq<T>>>,
                      challenges: seq<T>, r: T, w: nat)
    requires System(job, arities, left, workers) && |challenges| < left && w < |workers|
    ensures ThreadTables(K, job, arities, left, workers, [], w) == workers[w]
    ensures var now := ThreadTables(K, job, arities, left, workers, challenges, w);
            && |now| == |job.meta| && (forall i :: 0 <= i < |now| ==> |now[i]| > 0)
            && ThreadTables(K, job, arities, left, workers, challenges + [r], w)
                == FixVar(K, job.meta, left - |challenges|, now, r)
  {
    hide System, RunWorkers, ValidJob, ValidTables, ProverRounds.FixVar;
    RunWorkersNone(K, job, arities, left, workers);
    RunWorkersSnoc(K, job, arities, left, workers, challenges, r);
    var now := RunWorkers(K, job, arities, left, workers, challenges);
    SameCount(job, arities, left, workers, left - |challenges|, now);
    SystemNonEmpty(job, arities, left - |challenges|, now, w);
  }

  lemma SameCount<T>(job: Job<T>, arities: seq<nat>, left: nat, workers: seq<seq<seq<T>>>, later: nat,
                     others: seq<seq<seq<T>>>)
    requires System(job, arities, left, workers) && System(job, arities, later, others)
    ensures |workers| == |others|
  {
  }

  /** The message of thread w after the given challenges. */
  ghost function ThreadMessage<T>(K: Field<T>, job: Job<T>, arities: seq<nat>, left: nat, workers: seq<seq<seq<T>>>,
                                  challenges: seq<T>, w: nat): (r: seq<T>)
    requires System(job, arities, left, workers) && |challenges| < left && w < |workers|
  {
    hide System, RunWorkers, MessageUpTo;
    var now := RunWorkers(K, job, arities, left, workers, challenges);
    SameCount(job, arities, left, workers, left - |challenges|, now);
    Messages(K, job, arities, left - |challenges|, now, |job.terms|)[w]
  }

  lemma ThreadMessageIs<T>(K: Field<T>, job: Job<T>, arities: seq<nat>, left: nat, workers: seq<seq<seq<T>>>,
                           challenges: seq<T>, w: nat)
    requires System(job, arities, left, workers) && |challenges| < left && w < |workers|
    ensures var now := ThreadTables(K, job, arities, left, workers, challenges, w);
            && |now| == |job.meta| && (forall i :: 0 <= i < |job.terms| ==> Computable(job, now, job.terms[i].product))
            && ThreadMessage(K, job, arities, left, workers, challenges, w)
                 == MessageUpTo(K, job, w == |workers| - 1, left - |challenges|, now, |job.terms|)
  {
    hide System, RunWorkers, MessageUpTo, Computable;
    var now := RunWorkers(K, job, arities, left, workers, challenges);
    SameCount(job, arities, left, workers, left - |challenges|, now);
    WorkerComputable(job, arities, left - |challenges|, now, w);
  }

  /** One round of one thread: the challenge of the previous round is fixed, then the message is computed. */
  method ThreadRound<T(==, !new)>(state: IOPProverState<T>, challenge: Option<T>, ghost arities: seq<nat>,
                                  ghost workers: seq<seq<seq<T>>>,
                                  ghost w: nat, ghost received: seq<T>) returns (message: Option<seq<T>>)
    requires Lawful(state.K) && CharacteristicAbove(state.K, state.job.maxDegree)
    requires System(state.job, arities, state.maxNumVariables, workers) && w < |workers|
    requires state.isMainWorker <==> w == |workers| - 1
    requires state.round == |received| < state.maxNumVariables
    requires if received == [] then challenge.None? && state.mles == workers[w]
             else challenge == Some(received[|received| - 1])
                  && state.mles
                      == ThreadTables(state.K, state.job, arities, state.maxNumVariables, workers,
                                      received[..|received| - 1], w)
    modifies state
    ensures state.round == |received| + 1
    ensures state.challenges == old(state.challenges) + if received == [] then [] else [received[|received| - 1]]
    ensures state.mles == ThreadTables(state.K, state.job, arities, state.maxNumVariables, workers, received, w)
    ensures message.Some? <==> Supported(state.job.terms)
    ensures message.Some? ==>
              message.value == ThreadMessage(state.K, state.job, arities, state.maxNumVariables, workers, received, w)
  {
    hide System, MessageUpTo, ThreadTables, ThreadMessage, ProverRounds.FixVar, ValidTables, ValidJob, Computable,
         Supported, CharacteristicAbove, CeilLog2, Lawful, RunWorkers, Messages, Fold, Pow2, CurrentArity, ValidProduct;
    var K, n, k := state.K, state.maxNumVariables, state.round;
    if k > 0 {
      var before, last := received[..k - 1], received[k - 1];
      assert received == before + [last];
      ThreadStep(K, state.job, arities, n, workers, before, last, w);
    } else {
      ThreadStep(K, state.job, arities, n, workers, [], state.K.zero, w);
    }
    ThreadMessageIs(K, state.job, arities, n, workers, received, w);
    message := state.ProveRoundAndUpdateState(challenge, arities);
  }

  /** The loop of one thread of the first phase: a message per round, the challenge received for it, and the last
      challenge fixed at the end.  None is a product with too many factors. */
  method RunThread<T(==, !new)>(state: IOPProverState<T>, received: seq<T>, ghost arities: seq<nat>,
                                ghost workers: seq<seq<seq<T>>>,
                                ghost w: nat) returns (res: Option<seq<seq<T>>>)
    requires Lawful(state.K) && CharacteristicAbove(state.K, state.job.maxDegree)
    requires System(state.job, arities, state.maxNumVariables, workers) && w < |workers|
    requires state.isMainWorker <==> w == |workers| - 1
    requires state.round == 0 && state.challenges == [] && state.mles == workers[w]
    requires |received| == state.maxNumVariables > 0
    modifies state
    ensures res.Some? <==> Supported(state.job.terms)
    ensures res.Some? ==>
              && |res.value| == |received| && state.challenges == received
              && (forall k :: 0 <= k < |received| ==>
                    res.value[k] == ThreadMessage(state.K, state.job, arities, state.maxNumVariables, workers,
                                                  received[..k], w))
              && state.mles == ThreadTables(state.K, state.job, arities, state.maxNumVariables, workers, received, w)
  {
    hide System, MessageUpTo, ThreadTables, ThreadMessage, ProverRounds.FixVar, Supported;
    var n := state.maxNumVariables;
    var challenge: Option<T> := None;
    var messages: seq<seq<T>> := [];
    for k := 0 to n
      invariant state.round == k == |messages| && (k > 0 ==> Supported(state.job.terms))
      invariant if k == 0 then challenge.None? && state.mles == workers[w] && state.challenges == []
                else challenge == Some(received[k - 1]) && state.challenges == received[..k - 1]
                     && state.mles == ThreadTables(state.K, state.job, arities, n, workers, received[..k - 1], w)
      invariant forall j :: 0 <= j < k ==>
                  messages[j] == ThreadMessage(state.K, state.job, arities, n, workers, received[..j], w)
    {
      if k > 0 {
        assert received[..k][..k - 1] == received[..k - 1];
        assert received[..k - 1] + [received[k - 1]] == received[..k];
      }
      var message := ThreadRound(state, challenge, arities, workers, w, received[..k]);
      if message.None? {
        return None;
      }
      messages := messages + [message.value];
      challenge := Some(received[k]);
    }
    ThreadStep(state.K, state.job, arities, n, workers, received[..n - 1], received[n - 1], w);
    assert received[..n - 1] + [received[n - 1]] == received;
    state.PushChallenges([challenge.value]);
    state.FixVar(challenge.value);
    res := Some(messages);
  }

  /** The second phase: one worker on the merged tables and the main transcript, for a given number of rounds; the state
      starts with the challenges of the first phase.  None is the assertion that fails when the variables run out,
      or a product with too many factors. */
  method RunSecondPhase<T(==, !new)>(state: IOPProverState<T>, transcript: Transcript<T>, rounds: nat,
                                     ghost arities: seq<nat>,
                                     ghost tables: seq<seq<T>>) returns (res: Option<seq<seq<T>>>)
    requires Lawful(state.K) && CharacteristicAbove(state.K, state.job.maxDegree)
    requires System(state.job, arities, state.maxNumVariables, [tables]) && state.isMainWorker
    requires state.round == 0 && state.mles == tables
    modifies state, transcript
    ensures res.Some? <==> rounds <= state.maxNumVariables && (rounds > 0 ==> Supported(state.job.terms))
    ensures res.Some? ==>
              var messages := res.value;
              var drawn := Challenges(transcript.oracle, old(transcript.log), messages);
              && |messages| == rounds && transcript.log == AfterRounds(old(transcript.log), messages)
              && state.challenges == old(state.challenges) + drawn
              && (forall k :: 0 <= k < |messages| ==>
                    messages[k] == ThreadMessage(state.K, state.job, arities, state.maxNumVariables, [tables],
                                                 drawn[..k], 0))
              && state.mles == ThreadTables(state.K, state.job, arities, state.maxNumVariables, [tables], drawn, 0)
  {
    hide System, MessageUpTo, ThreadTables, ThreadMessage, ProverRounds.FixVar, Challenges, AfterRounds, Supported;
    var n := state.maxNumVariables;
    var challenge: Option<T> := None;
    var messages: seq<seq<T>> := [];
    ghost var received: seq<T>, prior := [], state.challenges;
    NoRounds(transcript.oracle, transcript.log);
    ThreadStart(state.K, state.job, arities, n, tables);
    for k := 0 to rounds
      invariant state.round == k == |messages| == |received| <= n && (k > 0 ==> Supported(state.job.terms))
      invariant received == Challenges(transcript.oracle, old(transcript.log), messages)
      invariant transcript.log == AfterRounds(old(transcript.log), messages)
      invariant if k == 0 then challenge.None? && state.mles == tables && state.challenges == prior
                else challenge == Some(received[k - 1]) && state.challenges == prior + received[..k - 1]
                     && state.mles == ThreadTables(state.K, state.job, arities, n, [tables], received[..k - 1], 0)
      invariant forall j :: 0 <= j < k ==>
                  messages[j] == ThreadMessage(state.K, state.job, arities, n, [tables], received[..j], 0)
    {
      if state.round >= state.maxNumVariables {
        return None;
      }
      if k > 0 {
        assert received[..k - 1] + [received[k - 1]] == received;
        assert (prior + received[..k - 1]) + [received[k - 1]] == prior + received;
      }
      assert received[..k] == received;
      var sent := ThreadRound(state, challenge, arities, [tables], 0, received);
      if sent.None? {
        return None;
      }
      var message := sent.value;
      AfterRoundsSnoc(old(transcript.log), messages, message);
      ChallengesSnoc(transcript.oracle, old(transcript.log), messages, message);
      transcript.AppendFieldElementExts(message);
      messages := messages + [message];
      var c := transcript.SampleAndAppendChallenge();
      challenge := Some(c);
      forall j | 0 <= j <= k ensures (received + [c])[..j] == received[..j] {}
      received := received + [c];
    }
    if challenge.Some? {
      var last := rounds - 1;
      ThreadStep(state.K, state.job, arities, n, [tables], received[..last], received[last], 0);
      assert received[..last] + [received[last]] == received;
      assert (prior + received[..last]) + [received[last]] == prior + received;
      state.PushChallenges([challenge.value]);
      state.FixVar(challenge.value);
    }
    res := Some(messages);
  }

  /** The messages of the threads are those that the protocol of the first phase exchanges. */
  lemma ThreadSendsWorkerMessage<T>(K: Field<T>, inst: Instance<T>, logThreads: nat, challenges: seq<T>, w: nat)
    requires ValidInstance(inst) && logThreads + |challenges| < inst.numVars && w < Pow2(logThreads)
    ensures var job, arities, left := RegisteredJob(inst, logThreads), WorkerArities(inst, logThreads),
              inst.numVars - logThreads;
            && System(job, arities, left, Registered(inst, logThreads))
            && ThreadMessage(K, job, arities, left, Registered(inst, logThreads), challenges, w)
            == WorkerMessage(K, inst, logThreads, challenges, w)
  {
    hide System, RunWorkers, FirstPhase, WorkerArities, RegisteredJob, Registered, ValidInstance, MessageUpTo;
    RegisteredSystem(inst, logThreads);
    FirstPhaseDef(K, inst, logThreads, challenges);
  }

  /** The message of the second phase is that of its one worker. */
  lemma SecondThreadSendsMessage<T(!new)>(K: Field<T>, inst: Instance<T>, logThreads: nat, first: seq<T>,
                                          second: seq<T>)
    requires Lawful(K) && ValidInstance(inst) && logThreads + |first| == inst.numVars && Wide(inst, logThreads)
    requires |second| < logThreads
    ensures var tables := MergedTables(K, inst, logThreads, first);
            var job, arities := MergedJob(inst.terms, |tables|, inst.maxDegree), MergedArities(|tables|, logThreads);
            && System(job, arities, logThreads, [tables])
            && ThreadMessage(K, job, arities, logThreads, [tables], second, 0)
                == SecondPhaseMessage(K, inst, logThreads, first, second)
  {
    hide System, RunWorkers, MergedTables, ValidInstance, Wide, MessageUpTo, MergedJob, MergedArities;
    SecondPhaseSystem(K, inst, logThreads, first);
    var tables := MergedTables(K, inst, logThreads, first);
    var job, arities := MergedJob(inst.terms, |tables|, inst.maxDegree), MergedArities(|tables|, logThreads);
    var now := RunWorkers(K, job, arities, logThreads, [tables], second);
    SameCount(job, arities, logThreads, [tables], logThreads - |second|, now);
    OneMessage(K, Messages(K, job, arities, logThreads - |second|, now, |job.terms|), job.maxDegree + 1);
  }

  lemma OneMessage<T(!new)>(K: Field<T>, messages: seq<seq<T>>, n: nat)
    requires Lawful(K) && |messages| == 1 && AllSized(messages, n)
    ensures SumAll(K, messages, n) == messages[0]
  {
    forall i | 0 <= i < n ensures SumAll(K, messages, n)[i] == messages[0][i] { AddZero(K, messages[0][i]); }
  }

  lemma NoRounds<T>(oracle: seq<Entry<T>> -> T, log: seq<Entry<T>>)
    ensures Challenges(oracle, log, []) == [] && AfterRounds(log, []) == log
  {
  }

  lemma ThreadStart<T>(K: Field<T>, job: Job<T>, arities: seq<nat>, left: nat, tables: seq<seq<T>>)
    requires System(job, arities, left, [tables])
    ensures ThreadTables(K, job, arities, left, [tables], [], 0) == tables
  {
    RunWorkersNone(K, job, arities, left, [tables]);
  }
}

/** The prover from beginning to end: the threads of the first phase in any interleaving, the merge, and the loop of the
    second phase.  Every finished execution sends the proof of the single-threaded prover. */
module WholeProver {
  import opened Wrappers
  import opened Fields
  import opened Sums
  import opened Interpolation
  import opened Extrapolation
  import opened Multilinear
  import opened HypercubeSums
  import opened SplitTables
  import opened RoundEvaluator
  import opened DistributedProver
  import opened ProverState
  import opened Registration
  import opened Merge
  import opened ProverRuns
  import opened Transcripts
  import opened Verifier
  import opened Sumcheck
  import opened Completeness
  import opened RollingChannels
  import opened ChannelResults
  import opened ConcurrentProver
  import opened ProverThreads

  // ---------- the second phase ----------

  /** What the loop of the second phase sends after the challenges of the first. */
  ghost predicate SecondLoop<T(!new)>(K: Field<T>, inst: Instance<T>, logThreads: nat, oracle: seq<Entry<T>> -> T,
                                      log: seq<Entry<T>>, first: seq<T>, messages: seq<seq<T>>)
    requires Lawful(K) && ValidInstance(inst) && Wide(inst, logThreads)
  {
    && |messages| == logThreads && logThreads + |first| == inst.numVars
    && forall k :: 0 <= k < |messages| ==>
         messages[k] == SecondPhaseMessage(K, inst, logThreads, first, Challenges(oracle, log, messages)[..k])
  }

  /** Merge, fresh state, and one round per halving of the workers.  It completes exactly when no product has too many
      factors and some table is wide enough; without one the variables run out before the rounds do. */
  method ProveSecondPhase<T(==, !new)>(K: Field<T>, inst: Instance<T>, logThreads: nat, first: seq<T>,
                                       workers: seq<seq<seq<T>>>,
                                       transcript: Transcript<T>) returns (res: Option<seq<seq<T>>>)
    requires Lawful(K) && ValidInstance(inst) && CharacteristicAbove(K, inst.maxDegree)
    requires 0 < logThreads && logThreads + |first| == inst.numVars && workers == FirstPhase(K, inst, logThreads, first)
    modifies transcript
    ensures res.Some? <==> Wide(inst, logThreads) && Supported(inst.terms)
    ensures res.Some? ==>
              && SecondLoop(K, inst, logThreads, transcript.oracle, old(transcript.log), first, res.value)
              && transcript.log == AfterRounds(old(transcript.log), res.value)
  {
    hide ValidInstance, System, FirstPhase, Mergeable, Merged, MergedNumVars, Wide, RegisteredJob, WorkerArities,
         SecondPhaseMessage, ThreadMessage, ThreadTables, Challenges, AfterRounds, CharacteristicAbove, SecondLoop,
         WellFormed, Pow2, Supported;
    NoTables(inst, logThreads);
    if inst.arities == [] {
      return None;
    }
    SystemMergeable(inst, logThreads, workers);
    MergedSizeExact(inst, logThreads, workers);
    var merge := MergeSumcheckPolys(RegisteredJob(inst, logThreads).meta, workers, logThreads);
    var (numVars, tables) := merge.value;
    MergedSystem(inst, logThreads, workers, numVars, tables);
    var job := MergedJob(inst.terms, |tables|, inst.maxDegree);
    var state := new IOPProverState<T>(K, job, true, numVars, tables);
    state.PushChallenges(first);
    res := RunSecondPhase(state, transcript, logThreads, MergedArities(|tables|, numVars), tables);
    if res.Some? {
      LoopSends(K, inst, logThreads, transcript.oracle, old(transcript.log), first, res.value, tables);
    }
  }

  lemma NoTables<T>(inst: Instance<T>, logThreads: nat)
    ensures inst.arities == [] ==> !Wide(inst, logThreads)
  {
  }

  lemma MergedSystem<T>(inst: Instance<T>, logThreads: nat, workers: seq<seq<seq<T>>>, numVars: nat,
                        tables: seq<seq<T>>)
    requires ValidInstance(inst) && numVars > 0 && workers != []
    requires (forall w :: 0 <= w < |workers| ==> |workers[w]| == |inst.arities|) &&
               (forall i :: 0 <= i < |inst.arities| ==> |workers[0][i]| > 0)
    requires var meta := RegisteredJob(inst, logThreads).meta;
             Mergeable(meta, workers, logThreads) && numVars == MergedNumVars(meta, workers[0], logThreads) &&
                 tables == Merged(meta, workers, numVars)
    ensures |tables| == |inst.arities|
    ensures System(MergedJob(inst.terms, |tables|, inst.maxDegree), MergedArities(|tables|, numVars), numVars, [tables])
  {
    hide Pow2, Concatenated, Repeat, CeilLog2, MergedNumVars, System, WholeTables;
    var meta := RegisteredJob(inst, logThreads).meta;
    forall i | 0 <= i < |tables| ensures |tables[i]| == Pow2(numVars) {
      assert TableMerges(meta[i], |workers[0][i]|, |Merged(meta, workers, numVars)[i]|, numVars, logThreads);
    }
    forall i | 0 <= i < |inst.terms|
      ensures Indexed(inst.terms[i].product, tables) && 0 < |inst.terms[i].product| <= inst.maxDegree
    {
      assert EqualArities(inst, inst.terms[i].product);
    }
    SingleSystem(inst.terms, inst.maxDegree, numVars, numVars, tables);
  }

  /** The messages of the loop are those of the second phase of a run. */
  lemma LoopSends<T(!new)>(K: Field<T>, inst: Instance<T>, logThreads: nat, oracle: seq<Entry<T>> -> T,
                           log: seq<Entry<T>>,
                           first: seq<T>, messages: seq<seq<T>>, tables: seq<seq<T>>)
    requires Lawful(K) && ValidInstance(inst) && logThreads + |first| == inst.numVars && Wide(inst, logThreads)
    requires |messages| == logThreads > 0
    requires tables == MergedTables(K, inst, logThreads, first)
    requires var job, arities := MergedJob(inst.terms, |tables|, inst.maxDegree), MergedArities(|tables|, logThreads);
             && System(job, arities, logThreads, [tables])
             && forall k :: 0 <= k < |messages| ==>
                  messages[k] == ThreadMessage(K, job, arities, logThreads, [tables],
                                               Challenges(oracle, log, messages)[..k], 0)
    ensures SecondLoop(K, inst, logThreads, oracle, log, first, messages)
  {
    hide ValidInstance, System, MergedTables, ThreadMessage, SecondPhaseMessage, Challenges, Wide, MergedJob,
         MergedArities;
    forall k | 0 <= k < |messages|
      ensures messages[k] == SecondPhaseMessage(K, inst, logThreads, first, Challenges(oracle, log, messages)[..k])
    {
      SecondThreadSendsMessage(K, inst, logThreads, first, Challenges(oracle, log, messages)[..k]);
    }
  }

  /** A two-variable polynomial of one table with one variable, over four threads: it is valid, but not wide. */
  lemma NarrowInstance<T>(K: Field<T>)
    ensures var inst := Instance([Term(K.one, [0])], [[K.zero, K.one]], [1], 1, 2);
            ValidInstance(inst) && !Wide(inst, 2)
  {
    var inst := Instance([Term(K.one, [0])], [[K.zero, K.one]], [1], 1, 2);
    assert Pow2(1) == 2;
    assert EqualArities(inst, inst.terms[0].product);
  }

  /** On that polynomial the prover fails in the second phase. */
  method NarrowInstanceFails<T(==, !new)>(K: Field<T>, transcript: Transcript<T>) returns (res: Option<seq<seq<T>>>)
    requires Lawful(K) && CharacteristicAbove(K, 1)
    modifies transcript
    ensures res.None?
  {
    var inst := Instance([Term(K.one, [0])], [[K.zero, K.one]], [1], 1, 2);
    NarrowInstance(K);
    res := ProveSecondPhase(K, inst, 2, [], FirstPhase(K, inst, 2, []), transcript);
  }

  // ---------- the whole proof ----------

  lemma {:induction false} RoundsConcat<T>(oracle: seq<Entry<T>> -> T, log: seq<Entry<T>>, first: seq<seq<T>>,
                                           second: seq<seq<T>>)
    ensures Challenges(oracle, log, first + second)
              == Challenges(oracle, log, first) + Challenges(oracle, AfterRounds(log, first), second)
    decreases |first|
  {
    hide Absorbed, AfterRound;
    if first == [] {
      assert first + second == second;
    } else {
      assert (first + second)[1..] == first[1..] + second;
      RoundsConcat(oracle, AfterRound(log, first[0]), first[1..], second);
    }
  }

  /** The messages of all threads of the first phase after the given challenges. */
  ghost function ThreadMessages<T(!new)>(K: Field<T>, inst: Instance<T>, logThreads: nat,
                                         challenges: seq<T>): (r: seq<seq<T>>)
    requires ValidInstance(inst) && logThreads + |challenges| < inst.numVars
    ensures |r| == Pow2(logThreads)
  {
    hide System, RegisteredJob, WorkerArities, Registered, ValidInstance;
    RegisteredSystem(inst, logThreads);
    RegisteredCount(inst, logThreads);
    seq(Pow2(logThreads), w requires 0 <= w < Pow2(logThreads) =>
      ThreadMessage(K, RegisteredJob(inst, logThreads), WorkerArities(inst, logThreads), inst.numVars - logThreads,
                    Registered(inst, logThreads), challenges, w))
  }

  lemma RegisteredCount<T>(inst: Instance<T>, logThreads: nat)
    requires ValidInstance(inst)
    ensures |Registered(inst, logThreads)| == Pow2(logThreads)
  {
  }

  /** What the channels carry are the messages of the thread loops. */
  lemma ChannelsCarryThreadMessages<T(!new)>(K: Field<T>, inst: Instance<T>, logThreads: nat,
                                             oracle: seq<Entry<T>> -> T,
                                             log: seq<Entry<T>>, challenges: seq<T>)
    requires ValidInstance(inst) && logThreads + |challenges| < inst.numVars
    ensures LocalMessages(PhaseOne(K, inst, logThreads, oracle, log), challenges)
              == ThreadMessages(K, inst, logThreads, challenges)
  {
    hide ValidInstance, System, RegisteredJob, WorkerArities, Registered, ThreadMessage, WorkerMessage;
    var c := PhaseOne(K, inst, logThreads, oracle, log);
    RegisteredSystem(inst, logThreads);
    RegisteredCount(inst, logThreads);
    forall w | 0 <= w < Pow2(logThreads)
      ensures LocalMessages(c, challenges)[w] == ThreadMessages(K, inst, logThreads, challenges)[w]
    {
      ThreadSendsWorkerMessage(K, inst, logThreads, challenges, w);
      assert c.local(w, challenges) == WorkerMessage(K, inst, logThreads, challenges, w);
    }
  }

  /** The tables the second phase merges are those the thread loops end with. */
  lemma ThreadsEndAsWorkers<T>(K: Field<T>, inst: Instance<T>, logThreads: nat, challenges: seq<T>, w: nat)
    requires ValidInstance(inst) && logThreads + |challenges| <= inst.numVars && w < Pow2(logThreads)
    ensures var job, arities, left := RegisteredJob(inst, logThreads), WorkerArities(inst, logThreads),
              inst.numVars - logThreads;
            && System(job, arities, left, Registered(inst, logThreads)) &&
                w < |FirstPhase(K, inst, logThreads, challenges)|
            && ThreadTables(K, job, arities, left, Registered(inst, logThreads), challenges, w)
            == FirstPhase(K, inst, logThreads, challenges)[w]
  {
    hide System, RunWorkers, FirstPhase, WorkerArities, RegisteredJob, Registered, ValidInstance;
    RegisteredSystem(inst, logThreads);
    RegisteredCount(inst, logThreads);
    FirstPhaseDef(K, inst, logThreads, challenges);
    ThreadCount(K, inst, logThreads, challenges);
  }

  /** A run of the first phase from its beginning to a state in which no thread can move. */
  ghost predicate Finished<T(!new)>(K: Field<T>, inst: Instance<T>, logThreads: nat, oracle: seq<Entry<T>> -> T,
                                    log: seq<Entry<T>>,
                                    actions: seq<Action>, t: State<T>)
    requires ValidInstance(inst) && logThreads <= inst.numVars
  {
    var c := PhaseOne(K, inst, logThreads, oracle, log);
    Run(c, Init(c), actions, t) && Shape(c, t) && Final(c, t)
  }

  /** Every finished execution, for every number of threads and every interleaving: in the first phase the main thread
      sends the sums of the messages of the thread loops, and together with what the loop of the second phase sends they
      are the proof of the single-threaded prover. */
  lemma FinishedExecution<T(!new)>(K: Field<T>, inst: Instance<T>, logThreads: nat, oracle: seq<Entry<T>> -> T,
                                   log: seq<Entry<T>>,
                                   actions: seq<Action>, t: State<T>, second: seq<seq<T>>)
    requires Lawful(K) && ValidInstance(inst) && logThreads <= inst.numVars && Wide(inst, logThreads)
    requires CharacteristicAbove(K, inst.maxDegree)
    requires Finished(K, inst, logThreads, oracle, log, actions, t)
    requires SecondLoop(K, inst, logThreads, oracle, t.main.log, t.main.challenges, second)
    ensures Wide(inst, 0) && |t.main.messages| == |t.main.challenges|
    ensures forall k :: 0 <= k < |t.main.messages| ==>
              && logThreads + |t.main.challenges[..k]| < inst.numVars
              && AllSized(ThreadMessages(K, inst, logThreads, t.main.challenges[..k]), inst.maxDegree + 1)
              && t.main.messages[k]
                  == SumAll(K, ThreadMessages(K, inst, logThreads, t.main.challenges[..k]), inst.maxDegree + 1)
    ensures t.main.messages + second == HonestProof(K, inst, 0, oracle, log + Opening(inst.numVars, inst.maxDegree), [])
  {
    hide ValidInstance, Wide, HonestProof, LocalMessages, SumAll, Challenges, FirstPhaseMessage, Run,
         CharacteristicAbove, ThreadMessages,
         AfterRounds, SecondPhaseMessage;
    var c, start := PhaseOne(K, inst, logThreads, oracle, log), log + Opening(inst.numVars, inst.maxDegree);
    var first, proof := t.main.challenges, t.main.messages + second;
    EveryRun(c, actions, t);
    ProofOfOneThread(K, inst, logThreads, oracle, start, []);
    RoundsConcat(oracle, start, t.main.messages, second);
    var all := Challenges(oracle, start, proof);
    forall k | 0 <= k < |proof| ensures proof[k] == DistributedMessage(K, inst, logThreads, [] + all[..k]) {
      assert [] + all[..k] == all[..k];
      if k < |first| {
        assert all[..k] == first[..k];
        LocalSum(K, inst, logThreads, oracle, log, first[..k]);
      } else {
        assert all[..k][..|first|] == first;
        assert all[..k][|first|..] == Challenges(oracle, t.main.log, second)[..k - |first|];
      }
    }
    HonestProofSplit(K, inst, logThreads, oracle, start, [], proof);
    assert proof + [] == proof;
    forall k | 0 <= k < |t.main.messages|
      ensures logThreads + |first[..k]| < inst.numVars
      ensures AllSized(ThreadMessages(K, inst, logThreads, first[..k]), inst.maxDegree + 1)
      ensures t.main.messages[k] == SumAll(K, ThreadMessages(K, inst, logThreads, first[..k]), inst.maxDegree + 1)
    {
      ChannelsCarryThreadMessages(K, inst, logThreads, oracle, log, first[..k]);
      LocalSum(K, inst, logThreads, oracle, log, first[..k]);
    }
  }

  /** End to end: the proof of a finished execution is accepted by the verifier exactly for the true sum, degrees 1 to
      4 and challenges off the nodes, and then reduces to the value of the polynomial at the challenges. */
  lemma ExecutionAccepted<T(!new)>(K: Field<T>, inst: Instance<T>, logThreads: nat, oracle: seq<Entry<T>> -> T,
                                   log: seq<Entry<T>>,
                                   sum: T, actions: seq<Action>, t: State<T>, second: seq<seq<T>>)
    requires Lawful(K) && ValidInstance(inst) && logThreads <= inst.numVars && Wide(inst, logThreads)
    requires CharacteristicAbove(K, inst.maxDegree)
    requires Finished(K, inst, logThreads, oracle, log, actions, t)
    requires SecondLoop(K, inst, logThreads, oracle, t.main.log, t.main.challenges, second)
    ensures var proof := t.main.messages + second;
            var challenges := Challenges(oracle, log + Opening(inst.numVars, inst.maxDegree), proof);
            var verdict := Verify(K, oracle, log, sum, proof, inst.numVars, inst.maxDegree);
            && |challenges| == inst.numVars
            && (verdict.Some? <==>
                  sum == TrueClaim(K, inst, []) && 1 <= inst.maxDegree <= 4 &&
                      AllOffNodes(K, inst.maxDegree, challenges))
            && (verdict.Some? ==> verdict.value == SubClaim(challenges, EvaluateSlow(K, inst, challenges)))
  {
    hide *;
    FinishedExecution(K, inst, logThreads, oracle, log, actions, t, second);
    CompletenessExact(K, inst, 0, oracle, log, sum);
  }
}

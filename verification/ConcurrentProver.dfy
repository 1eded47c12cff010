/** The distributed prover as a whole: the concurrent first phase runs the threads of the prover, and the second
    phase continues on the merged tables.  Every interleaving yields the proof of the single prover. */
module ConcurrentProver {
  import opened Fields
  import opened Sums
  import opened Interpolation
  import opened Extrapolation
  import opened Multilinear
  import opened HypercubeSums
  import opened SplitTables
  import opened RoundEvaluator
  import opened ProverRounds
  import opened DistributedProver
  import opened ProverPhases
  import opened ProverState
  import opened Registration
  import opened Merge
  import opened ProverRuns
  import opened Transcripts
  import opened Verifier
  import opened Sumcheck
  import opened Completeness
  import opened RollingChannels
  import opened ChannelResults

  // ---------- one thread ----------

  lemma {:induction false} RunWorkersSnoc<T>(K: Field<T>, job: Job<T>, arities: seq<nat>, left: nat,
                                             workers: seq<seq<seq<T>>>,
                                             challenges: seq<T>, r: T)
    requires System(job, arities, left, workers) && |challenges| < left
    ensures RunWorkers(K, job, arities, left, workers, challenges + [r])
         == FixWorkers(K, job, arities, left - |challenges|, RunWorkers(K, job, arities, left, workers, challenges), r)
    decreases |challenges|
  {
    hide System, FixWorkers;
    var all := challenges + [r];
    FixWorkersSystem(K, job, arities, left, workers, all[0]);
    var next := FixWorkers(K, job, arities, left, workers, all[0]);
    if challenges == [] {
      assert all[1..] == [];
      RunWorkersNone(K, job, arities, left - 1, next);
    } else {
      assert all[1..] == challenges[1..] + [r];
      RunWorkersSnoc(K, job, arities, left - 1, next, challenges[1..], r);
    }
  }

  lemma RunWorkersNone<T>(K: Field<T>, job: Job<T>, arities: seq<nat>, left: nat, workers: seq<seq<seq<T>>>)
    requires System(job, arities, left, workers)
    ensures RunWorkers(K, job, arities, left, workers, []) == workers
  {
  }

  /** The message of thread w in the round after the given challenges. */
  function WorkerMessage<T>(K: Field<T>, inst: Instance<T>, logThreads: nat, challenges: seq<T>, w: nat): (r: seq<T>)
    requires ValidInstance(inst) && logThreads + |challenges| < inst.numVars && w < Pow2(logThreads)
    ensures |r| == inst.maxDegree + 1
  {
    hide WorkerArities, FirstPhase;
    ThreadCount(K, inst, logThreads, challenges);
    Messages(K, RegisteredJob(inst, logThreads), WorkerArities(inst, logThreads),
             inst.numVars - logThreads - |challenges|,
             FirstPhase(K, inst, logThreads, challenges), |inst.terms|)[w]
  }

  lemma ThreadCount<T>(K: Field<T>, inst: Instance<T>, logThreads: nat, challenges: seq<T>)
    requires ValidInstance(inst) && logThreads + |challenges| <= inst.numVars
    ensures |FirstPhase(K, inst, logThreads, challenges)| == Pow2(logThreads)
    ensures System(RegisteredJob(inst, logThreads), WorkerArities(inst, logThreads),
                   inst.numVars - logThreads - |challenges|,
                   FirstPhase(K, inst, logThreads, challenges))
  {
    hide FirstPhase, ValidInstance;
  }

  // ---------- all threads ----------

  /** The channels of the first phase with the threads of the prover: 2^logThreads - 1 workers and the main thread. */
  function PhaseOne<T(!new)>(K: Field<T>, inst: Instance<T>, logThreads: nat, oracle: seq<Entry<T>> -> T,
                             log: seq<Entry<T>>): (c: Config<T>)
    requires ValidInstance(inst) && logThreads <= inst.numVars
    ensures forall w: nat, cs: seq<T> {:trigger c.local(w, cs)} :: |c.local(w, cs)| == c.len
  {
    Config(K, Pow2(logThreads) - 1, inst.numVars - logThreads, inst.maxDegree + 1,
           (w: nat, cs: seq<T>) =>
             if w < Pow2(logThreads) && logThreads + |cs| < inst.numVars then WorkerMessage(K, inst, logThreads, cs, w)
             else Zeros(K, inst.maxDegree + 1),
           oracle, log + Opening(inst.numVars, inst.maxDegree))
  }

  lemma LocalSum<T(!new)>(K: Field<T>, inst: Instance<T>, logThreads: nat, oracle: seq<Entry<T>> -> T,
                          log: seq<Entry<T>>, challenges: seq<T>)
    requires ValidInstance(inst) && logThreads + |challenges| < inst.numVars
    ensures var c := PhaseOne(K, inst, logThreads, oracle, log);
            AllSized(LocalMessages(c, challenges), c.len)
            && SumAll(K, LocalMessages(c, challenges), c.len) == FirstPhaseMessage(K, inst, logThreads, challenges)
  {
    hide WorkerArities, FirstPhase, SumAll, System, ValidInstance, MessageUpTo, RegisteredJob;
    ThreadCount(K, inst, logThreads, challenges);
    var c := PhaseOne(K, inst, logThreads, oracle, log);
    var messages := Messages(K, RegisteredJob(inst, logThreads), WorkerArities(inst, logThreads),
                             inst.numVars - logThreads - |challenges|,
                             FirstPhase(K, inst, logThreads, challenges), |inst.terms|);
    forall w | 0 <= w < Pow2(logThreads) ensures LocalMessages(c, challenges)[w] == messages[w] {
      assert c.local(w, challenges) == WorkerMessage(K, inst, logThreads, challenges, w);
    }
    assert LocalMessages(c, challenges) == messages;
  }

  lemma HonestProofStep<T(!new)>(K: Field<T>, inst: Instance<T>, logThreads: nat, oracle: seq<Entry<T>> -> T,
                                 log: seq<Entry<T>>, challenges: seq<T>)
    requires Lawful(K) && ValidInstance(inst) && logThreads <= inst.numVars && Wide(inst, logThreads)
    requires |challenges| < inst.numVars
    ensures var message := DistributedMessage(K, inst, logThreads, challenges);
            HonestProof(K, inst, logThreads, oracle, log, challenges)
              == [message] + HonestProof(K, inst, logThreads, oracle, AfterRound(log, message),
                                         challenges + [oracle(Absorbed(log, message))])
  {
    hide DistributedMessage, Wide, ValidInstance, Absorbed, AfterRound;
  }

  lemma FirstRound<T>(oracle: seq<Entry<T>> -> T, log: seq<Entry<T>>, messages: seq<seq<T>>)
    requires messages != []
    ensures Challenges(oracle, log, messages)
         == [oracle(Absorbed(log, messages[0]))] + Challenges(oracle, AfterRound(log, messages[0]), messages[1..])
    ensures AfterRounds(log, messages) == AfterRounds(AfterRound(log, messages[0]), messages[1..])
  {
  }

  /** A proof that starts with honest messages continues as the honest proof from there. */
  lemma {:induction false} HonestProofSplit<T(!new)>(K: Field<T>, inst: Instance<T>, logThreads: nat,
                                                     oracle: seq<Entry<T>> -> T,
                                                     log: seq<Entry<T>>, challenges: seq<T>, messages: seq<seq<T>>)
    requires Lawful(K) && ValidInstance(inst) && logThreads <= inst.numVars && Wide(inst, logThreads)
    requires |challenges| + |messages| <= inst.numVars
    requires forall k :: 0 <= k < |messages| ==>
               messages[k] == DistributedMessage(K, inst, logThreads,
                                                 challenges + Challenges(oracle, log, messages)[..k])
    ensures HonestProof(K, inst, logThreads, oracle, log, challenges)
         == messages + HonestProof(K, inst, logThreads, oracle, AfterRounds(log, messages),
                                   challenges + Challenges(oracle, log, messages))
    decreases |messages|
  {
    if messages == [] {
      assert challenges + Challenges(oracle, log, messages) == challenges;
    } else {
      hide *;
      var c, rest := oracle(Absorbed(log, messages[0])), messages[1..];
      var later := Challenges(oracle, AfterRound(log, messages[0]), rest);
      FirstRound(oracle, log, messages);
      HonestProofStep(K, inst, logThreads, oracle, log, challenges);
      Shifted(challenges, c, later, 0);
      forall k | 0 <= k < |rest|
        ensures rest[k] == DistributedMessage(K, inst, logThreads, (challenges + [c]) + later[..k])
      {
        Shifted(challenges, c, later, k);
        assert rest[k] == messages[k + 1];
      }
      HonestProofSplit(K, inst, logThreads, oracle, AfterRound(log, messages[0]), challenges + [c], rest);
      HeadAndRest(messages,
                  HonestProof(K, inst, logThreads, oracle, AfterRounds(log, messages),
                              challenges + Challenges(oracle, log, messages)));
    }
  }

  lemma Shifted<T>(challenges: seq<T>, c: T, later: seq<T>, k: nat)
    requires k <= |later|
    ensures challenges + ([c] + later)[..0] == challenges
    ensures challenges + ([c] + later)[..k + 1] == (challenges + [c]) + later[..k]
    ensures challenges + ([c] + later) == (challenges + [c]) + later
  {
  }

  lemma HeadAndRest<T>(messages: seq<T>, tail: seq<T>)
    requires messages != []
    ensures messages + tail == [messages[0]] + (messages[1..] + tail)
  {
  }

  /** The honest proof does not depend on the number of threads. */
  lemma {:induction false} ProofOfOneThread<T(!new)>(K: Field<T>, inst: Instance<T>, logThreads: nat,
                                                     oracle: seq<Entry<T>> -> T,
                                                     log: seq<Entry<T>>, challenges: seq<T>)
    requires Lawful(K) && ValidInstance(inst) && logThreads <= inst.numVars && Wide(inst, logThreads)
    requires |challenges| <= inst.numVars && CharacteristicAbove(K, inst.maxDegree)
    ensures Wide(inst, 0)
    ensures HonestProof(K, inst, logThreads, oracle, log, challenges)
              == HonestProof(K, inst, 0, oracle, log, challenges)
    decreases inst.numVars - |challenges|
  {
    WideForOne(inst, logThreads);
    if |challenges| < inst.numVars {
      hide *;
      ThreadsDoNotMatter(K, inst, logThreads, challenges);
      HonestProofStep(K, inst, logThreads, oracle, log, challenges);
      HonestProofStep(K, inst, 0, oracle, log, challenges);
      var message := DistributedMessage(K, inst, 0, challenges);
      ProofOfOneThread(K, inst, logThreads, oracle, AfterRound(log, message),
                       challenges + [oracle(Absorbed(log, message))]);
    }
  }

  lemma WideForOne<T>(inst: Instance<T>, logThreads: nat)
    requires Wide(inst, logThreads)
    ensures Wide(inst, 0)
  {
    var i :| 0 <= i < |inst.arities| && inst.arities[i] >= logThreads;
    assert inst.arities[i] >= 0;
  }

  /** The proof that an execution is on its way to: the messages of the main thread so far, continued as specified. */
  function ExecutedProof<T(!new)>(K: Field<T>, inst: Instance<T>, logThreads: nat, oracle: seq<Entry<T>> -> T,
                                  t: State<T>): seq<seq<T>>
    requires Lawful(K) && ValidInstance(inst) && logThreads <= inst.numVars && Wide(inst, logThreads)
    requires |t.main.challenges| <= inst.numVars
  {
    t.main.messages + HonestProof(K, inst, logThreads, oracle, t.main.log, t.main.challenges)
  }

  /** Under every interleaving of the first phase, for every number of threads, at every moment the messages sent so far
      are a beginning of the proof of the single-threaded prover. */
  lemma EveryInterleaving<T(!new)>(K: Field<T>, inst: Instance<T>, logThreads: nat, oracle: seq<Entry<T>> -> T,
                                   log: seq<Entry<T>>,
                                   actions: seq<Action>, t: State<T>)
    requires Lawful(K) && ValidInstance(inst) && logThreads <= inst.numVars && Wide(inst, logThreads)
    requires CharacteristicAbove(K, inst.maxDegree)
    requires var c := PhaseOne(K, inst, logThreads, oracle, log); Run(c, Init(c), actions, t)
    ensures |t.main.challenges| + logThreads <= inst.numVars && Wide(inst, 0)
    ensures ExecutedProof(K, inst, logThreads, oracle, t)
         == HonestProof(K, inst, 0, oracle, log + Opening(inst.numVars, inst.maxDegree), [])
    ensures t.main.messages <= HonestProof(K, inst, 0, oracle, log + Opening(inst.numVars, inst.maxDegree), [])
  {
    hide ValidInstance, Wide, HonestProof, LocalMessages, SumAll, Challenges, FirstPhaseMessage, Run,
         CharacteristicAbove;
    var c := PhaseOne(K, inst, logThreads, oracle, log);
    EveryRun(c, actions, t);
    var start := log + Opening(inst.numVars, inst.maxDegree);
    var challenges := t.main.challenges;
    forall k | 0 <= k < |t.main.messages|
      ensures t.main.messages[k] == DistributedMessage(K, inst, logThreads, [] + challenges[..k])
    {
      LocalSum(K, inst, logThreads, oracle, log, challenges[..k]);
      assert [] + challenges[..k] == challenges[..k];
    }
    HonestProofSplit(K, inst, logThreads, oracle, start, [], t.main.messages);
    assert [] + challenges == challenges;
    ProofOfOneThread(K, inst, logThreads, oracle, start, []);
  }
}

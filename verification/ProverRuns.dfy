/** Whole runs of the distributed prover: the rounds of the first phase, the merge, and the rounds of the
    second phase send the messages of a single prover on the unsplit tables. */
module ProverRuns {
  import opened Fields
  import opened Sums
  import opened Interpolation
  import opened Multilinear
  import opened HypercubeSums
  import opened MixedArity
  import opened RoundEvaluator
  import opened ProverRounds
  import opened DistributedProver
  import opened ProverPhases
  import opened Registration
  import opened Merge

  // ---------- rounds ----------

  /** All tables after the lowest |point| variables have been fixed. */
  function FoldTables<T>(K: Field<T>, mles: seq<seq<T>>, point: seq<T>): (r: seq<seq<T>>)
    ensures |r| == |mles|
    decreases |point|
  {
    if point == [] then mles else FoldTables(K, FoldAll(K, mles, point[0]), point[1..])
  }

  lemma {:induction false} FoldTablesConcat<T>(K: Field<T>, mles: seq<seq<T>>, p: seq<T>, q: seq<T>)
    ensures FoldTables(K, mles, p + q) == FoldTables(K, FoldTables(K, mles, p), q)
    decreases |p|
  {
    if p == [] {
      assert p + q == q;
    } else {
      assert (p + q)[1..] == p[1..] + q;
      FoldTablesConcat(K, FoldAll(K, mles, p[0]), p[1..], q);
    }
  }

  lemma {:induction false} FoldTablesAt<T>(K: Field<T>, mles: seq<seq<T>>, point: seq<T>, i: nat)
    requires i < |mles|
    ensures FoldTables(K, mles, point)[i] == FoldMany(K, mles[i], point)
    decreases |point|
  {
    if point != [] { FoldTablesAt(K, FoldAll(K, mles, point[0]), point[1..], i); }
  }

  /** The tables of all workers after the rounds with the given challenges. */
  function RunWorkers<T>(K: Field<T>, job: Job<T>, ghost arities: seq<nat>, left: nat, workers: seq<seq<seq<T>>>,
                         challenges: seq<T>): (r: seq<seq<seq<T>>>)
    requires System(job, arities, left, workers) && |challenges| <= left
    ensures System(job, arities, left - |challenges|, r)
    decreases |challenges|
  {
    hide *;
    if challenges == [] then workers
    else
      FixWorkersSystem(K, job, arities, left, workers, challenges[0]);
      assert left - 1 - |challenges[1..]| == left - |challenges|;
      RunWorkers(K, job, arities, left - 1, FixWorkers(K, job, arities, left, workers, challenges[0]), challenges[1..])
  }

  lemma {:induction false} RunWhole<T(!new)>(K: Field<T>, job: Job<T>, arities: seq<nat>, left: nat,
                                             workers: seq<seq<seq<T>>>,
                                             challenges: seq<T>)
    requires Lawful(K) && System(job, arities, left, workers) && |challenges| <= left
    ensures WholeTables(job, arities, left - |challenges|, RunWorkers(K, job, arities, left, workers, challenges))
         == FoldTables(K, WholeTables(job, arities, left, workers), challenges)
    decreases |challenges|
  {
    hide System, WholeTables, FixWorkers;
    if challenges != [] {
      FixWorkersExact(K, job, arities, left, workers, challenges[0]);
      RunWhole(K, job, arities, left - 1, FixWorkers(K, job, arities, left, workers, challenges[0]), challenges[1..]);
    }
  }

  // ---------- the second phase is one worker on the merged tables ----------

  function MergedJob<T>(terms: seq<Term<T>>, count: nat, maxDegree: nat): (job: Job<T>)
    ensures |job.meta| == count && forall i :: 0 <= i < count ==> job.meta[i].Normal?
    ensures job.terms == terms && job.maxDegree == maxDegree && job.phase2NumVars == 0
  {
    Job(terms, seq(count, _ => Normal), maxDegree, 0)
  }

  function MergedArities(count: nat, numVars: nat): (r: seq<nat>)
    ensures |r| == count && forall i :: 0 <= i < count ==> r[i] == numVars
  {
    seq(count, _ => numVars)
  }

  lemma SingleSystem<T>(terms: seq<Term<T>>, maxDegree: nat, numVars: nat, left: nat, tables: seq<seq<T>>)
    requires numVars > 0 && left <= numVars && WellFormed(terms, tables, Pow2(left))
    requires forall i :: 0 <= i < |terms| ==> 0 < |terms[i].product| <= maxDegree
    ensures System(MergedJob(terms, |tables|, maxDegree), MergedArities(|tables|, numVars), left, [tables])
    ensures WholeTables(MergedJob(terms, |tables|, maxDegree), MergedArities(|tables|, numVars), left, [tables])
              == tables
  {
    var job, arities := MergedJob(terms, |tables|, maxDegree), MergedArities(|tables|, numVars);
    hide Repeat;
    Pow2Zero();
    forall i | 0 <= i < |terms| ensures ValidProduct(job, arities, terms[i].product) {
      assert Indexed(terms[i].product, tables);
    }
    forall i | 0 <= i < |tables| ensures WholeTable(job, arities, left, [tables], i) == tables[i] {
      OneChunk(tables, i);
    }
  }

  lemma OneChunk<T>(tables: seq<seq<T>>, i: nat)
    requires i < |tables|
    ensures Concatenated([tables], i, 1) == tables[i]
  {
    RepeatOnce(tables[i]);
    assert Concatenated<T>([tables][1..], i, 1) == [];
  }

  // ---------- all rounds ----------

  /** The workers after the challenges of (a part of) the first phase. */
  function FirstPhase<T>(K: Field<T>, inst: Instance<T>, logThreads: nat, challenges: seq<T>): (r: seq<seq<seq<T>>>)
    requires ValidInstance(inst) && logThreads + |challenges| <= inst.numVars
    ensures System(RegisteredJob(inst, logThreads), WorkerArities(inst, logThreads),
                   inst.numVars - logThreads - |challenges|, r)
  {
    hide *;
    RegisteredSystem(inst, logThreads);
    RunWorkers(K, RegisteredJob(inst, logThreads), WorkerArities(inst, logThreads), inst.numVars - logThreads,
               Registered(inst, logThreads), challenges)
  }

  lemma FirstPhaseWhole<T(!new)>(K: Field<T>, inst: Instance<T>, logThreads: nat, challenges: seq<T>)
    requires Lawful(K) && ValidInstance(inst) && logThreads + |challenges| <= inst.numVars
    ensures WholeTables(RegisteredJob(inst, logThreads), WorkerArities(inst, logThreads),
                        inst.numVars - logThreads - |challenges|,
                        FirstPhase(K, inst, logThreads, challenges))
         == FoldTables(K, Padded(inst), challenges)
  {
    hide *;
    RegisteredWhole(inst, logThreads);
    RunWhole(K, RegisteredJob(inst, logThreads), WorkerArities(inst, logThreads), inst.numVars - logThreads,
             Registered(inst, logThreads), challenges);
    assert FirstPhase(K, inst, logThreads, challenges)
        == RunWorkers(K, RegisteredJob(inst, logThreads), WorkerArities(inst, logThreads), inst.numVars - logThreads,
                      Registered(inst, logThreads), challenges) by { FirstPhaseDef(K, inst, logThreads, challenges); }
  }

  lemma FirstPhaseDef<T>(K: Field<T>, inst: Instance<T>, logThreads: nat, challenges: seq<T>)
    requires ValidInstance(inst) && logThreads + |challenges| <= inst.numVars
    requires System(RegisteredJob(inst, logThreads), WorkerArities(inst, logThreads), inst.numVars - logThreads,
                    Registered(inst, logThreads))
    ensures FirstPhase(K, inst, logThreads, challenges)
        == RunWorkers(K, RegisteredJob(inst, logThreads), WorkerArities(inst, logThreads), inst.numVars - logThreads,
                      Registered(inst, logThreads), challenges)
  {
  }

  /** The tables the second phase starts from. */
  function MergedTables<T>(K: Field<T>, inst: Instance<T>, logThreads: nat, challenges: seq<T>): (r: seq<seq<T>>)
    requires ValidInstance(inst) && logThreads + |challenges| == inst.numVars && Wide(inst, logThreads)
  {
    var workers := FirstPhase(K, inst, logThreads, challenges);
    var meta := RegisteredJob(inst, logThreads).meta;
    MergedSize(inst, logThreads, workers);
    MergedWhole(RegisteredJob(inst, logThreads), WorkerArities(inst, logThreads), workers);
    Merged(meta, workers, MergedNumVars(meta, workers[0], logThreads))
  }

  lemma MergedTablesExact<T(!new)>(K: Field<T>, inst: Instance<T>, logThreads: nat, challenges: seq<T>)
    requires Lawful(K) && ValidInstance(inst) && logThreads + |challenges| == inst.numVars && Wide(inst, logThreads)
    ensures MergedTables(K, inst, logThreads, challenges) == FoldTables(K, Padded(inst), challenges)
  {
    hide System, WholeTables, FirstPhase, Padded, FoldTables, Merged, MergedNumVars;
    var workers := FirstPhase(K, inst, logThreads, challenges);
    MergedSize(inst, logThreads, workers);
    MergedWhole(RegisteredJob(inst, logThreads), WorkerArities(inst, logThreads), workers);
    FirstPhaseWhole(K, inst, logThreads, challenges);
  }

  lemma {:induction false} FoldTablesWellFormed<T>(K: Field<T>, terms: seq<Term<T>>, mles: seq<seq<T>>, left: nat,
                                                   point: seq<T>)
    requires WellFormed(terms, mles, Pow2(left)) && |point| <= left
    ensures WellFormed(terms, FoldTables(K, mles, point), Pow2(left - |point|))
    ensures |point| < left ==> WellFormed(terms, FoldTables(K, mles, point), 2 * Pow2(left - |point| - 1))
    decreases |point|
  {
    hide WellFormed;
    if |point| < left { Pow2Even(left - |point|); }
    if point != [] {
      Pow2Even(left);
      FoldAllWellFormed(K, terms, mles, Pow2(left - 1), point[0]);
      FoldTablesWellFormed(K, terms, FoldAll(K, mles, point[0]), left - 1, point[1..]);
    }
  }

  lemma PaddedWellFormed<T>(inst: Instance<T>)
    requires ValidInstance(inst)
    ensures WellFormed(inst.terms, Padded(inst), Pow2(inst.numVars))
    ensures forall i :: 0 <= i < |inst.terms| ==> 0 < |inst.terms[i].product| <= inst.maxDegree
  {
    forall i | 0 <= i < |inst.mles| ensures |Padded(inst)[i]| == Pow2(inst.numVars) {
      Pow2Add(inst.arities[i], inst.numVars - inst.arities[i]);
    }
    forall i | 0 <= i < |inst.terms|
      ensures Indexed(inst.terms[i].product, Padded(inst)) && 0 < |inst.terms[i].product| <= inst.maxDegree
    {
      assert EqualArities(inst, inst.terms[i].product);
    }
  }

  /** The summed message of all workers in the first phase. */
  function FirstPhaseMessage<T>(K: Field<T>, inst: Instance<T>, logThreads: nat, challenges: seq<T>): (r: seq<T>)
    requires ValidInstance(inst) && logThreads + |challenges| < inst.numVars
    ensures |r| == inst.maxDegree + 1
  {
    hide System, WorkerArities, FirstPhase;
    SystemMessage(K, RegisteredJob(inst, logThreads), WorkerArities(inst, logThreads),
                  inst.numVars - logThreads - |challenges|,
                  FirstPhase(K, inst, logThreads, challenges))
  }

  lemma FirstPhaseMessageExact<T(!new)>(K: Field<T>, inst: Instance<T>, logThreads: nat, challenges: seq<T>)
    requires Lawful(K) && ValidInstance(inst) && logThreads + |challenges| < inst.numVars &&
               CharacteristicAbove(K, inst.maxDegree)
    ensures WellFormed(inst.terms, FoldTables(K, Padded(inst), challenges), 2 * Pow2(inst.numVars - |challenges| - 1))
    ensures FirstPhaseMessage(K, inst, logThreads, challenges)
         == HonestMessage(K, inst.terms, FoldTables(K, Padded(inst), challenges),
                          Pow2(inst.numVars - |challenges| - 1), inst.maxDegree)
  {
    hide ValidInstance, System, WholeTables, WellFormed, Padded, FoldTables, SystemMessage, HonestMessage, FirstPhase,
         Pow2;
    FirstPhaseWhole(K, inst, logThreads, challenges);
    SystemMessageExact(K, RegisteredJob(inst, logThreads), WorkerArities(inst, logThreads),
                       inst.numVars - logThreads - |challenges|,
                       FirstPhase(K, inst, logThreads, challenges));
  }

  lemma SecondPhaseSystem<T(!new)>(K: Field<T>, inst: Instance<T>, logThreads: nat, challenges: seq<T>)
    requires Lawful(K) && ValidInstance(inst) && 0 < logThreads && logThreads + |challenges| == inst.numVars &&
               Wide(inst, logThreads)
    ensures var tables := MergedTables(K, inst, logThreads, challenges);
            var job, arities := MergedJob(inst.terms, |tables|, inst.maxDegree), MergedArities(|tables|, logThreads);
            System(job, arities, logThreads, [tables]) && WholeTables(job, arities, logThreads, [tables]) == tables
  {
    hide System, WholeTables, MergedTables, WellFormed, Padded, FoldTables;
    var tables := MergedTables(K, inst, logThreads, challenges);
    MergedTablesExact(K, inst, logThreads, challenges);
    PaddedWellFormed(inst);
    FoldTablesWellFormed(K, inst.terms, Padded(inst), inst.numVars, challenges);
    SingleSystem(inst.terms, inst.maxDegree, logThreads, logThreads, tables);
  }

  /** The message of one worker on the merged tables, after the challenges of the first and the second phase. */
  function SecondPhaseMessage<T(!new)>(K: Field<T>, inst: Instance<T>, logThreads: nat, first: seq<T>,
                                       second: seq<T>): (r: seq<T>)
    requires Lawful(K) && ValidInstance(inst) && logThreads + |first| == inst.numVars && Wide(inst, logThreads)
    requires |second| < logThreads
    ensures |r| == inst.maxDegree + 1
  {
    hide System, MergedTables;
    SecondPhaseSystem(K, inst, logThreads, first);
    var tables := MergedTables(K, inst, logThreads, first);
    var job, arities := MergedJob(inst.terms, |tables|, inst.maxDegree), MergedArities(|tables|, logThreads);
    SystemMessage(K, job, arities, logThreads - |second|, RunWorkers(K, job, arities, logThreads, [tables], second))
  }

  lemma SecondPhaseMessageExact<T(!new)>(K: Field<T>, inst: Instance<T>, logThreads: nat, first: seq<T>, second: seq<T>)
    requires Lawful(K) && ValidInstance(inst) && logThreads + |first| == inst.numVars && Wide(inst, logThreads)
    requires |second| < logThreads && CharacteristicAbove(K, inst.maxDegree)
    ensures WellFormed(inst.terms, FoldTables(K, Padded(inst), first + second), 2 * Pow2(logThreads - |second| - 1))
    ensures SecondPhaseMessage(K, inst, logThreads, first, second)
         == HonestMessage(K, inst.terms, FoldTables(K, Padded(inst), first + second), Pow2(logThreads - |second| - 1),
                          inst.maxDegree)
  {
    hide ValidInstance, System, WholeTables, MergedTables, WellFormed, Padded, FoldTables, SystemMessage,
         HonestMessage, RunWorkers, Pow2;
    SecondPhaseSystem(K, inst, logThreads, first);
    var tables := MergedTables(K, inst, logThreads, first);
    var job, arities := MergedJob(inst.terms, |tables|, inst.maxDegree), MergedArities(|tables|, logThreads);
    MergedTablesExact(K, inst, logThreads, first);
    RunWhole(K, job, arities, logThreads, [tables], second);
    FoldTablesConcat(K, Padded(inst), first, second);
    SystemMessageExact(K, job, arities, logThreads - |second|,
                       RunWorkers(K, job, arities, logThreads, [tables], second));
  }

  /** The message of the round after the given challenges, with 2^logThreads workers. */
  function DistributedMessage<T(!new)>(K: Field<T>, inst: Instance<T>, logThreads: nat, challenges: seq<T>): (r: seq<T>)
    requires Lawful(K) && ValidInstance(inst) && logThreads <= inst.numVars && Wide(inst, logThreads)
    requires |challenges| < inst.numVars
    ensures |r| == inst.maxDegree + 1
  {
    var first := inst.numVars - logThreads;
    if |challenges| < first then FirstPhaseMessage(K, inst, logThreads, challenges)
    else SecondPhaseMessage(K, inst, logThreads, challenges[..first], challenges[first..])
  }

  /** For every number of workers, every round of both phases sends the message of the single prover on the
      unsplit, padded tables. */
  lemma DistributedMessageExact<T(!new)>(K: Field<T>, inst: Instance<T>, logThreads: nat, challenges: seq<T>)
    requires Lawful(K) && ValidInstance(inst) && logThreads <= inst.numVars && Wide(inst, logThreads)
    requires |challenges| < inst.numVars && CharacteristicAbove(K, inst.maxDegree)
    ensures WellFormed(inst.terms, FoldTables(K, Padded(inst), challenges), 2 * Pow2(inst.numVars - |challenges| - 1))
    ensures DistributedMessage(K, inst, logThreads, challenges)
         == HonestMessage(K, inst.terms, FoldTables(K, Padded(inst), challenges),
                          Pow2(inst.numVars - |challenges| - 1), inst.maxDegree)
  {
    hide WellFormed, Padded, FoldTables, FirstPhaseMessage, SecondPhaseMessage, HonestMessage, Pow2;
    var first := inst.numVars - logThreads;
    if |challenges| < first {
      FirstPhaseMessageExact(K, inst, logThreads, challenges);
    } else {
      assert challenges == challenges[..first] + challenges[first..];
      SecondPhaseMessageExact(K, inst, logThreads, challenges[..first], challenges[first..]);
    }
  }

  /** The number of workers does not matter: the messages are those of the single-threaded prover. */
  lemma ThreadsDoNotMatter<T(!new)>(K: Field<T>, inst: Instance<T>, logThreads: nat, challenges: seq<T>)
    requires Lawful(K) && ValidInstance(inst) && logThreads <= inst.numVars && Wide(inst, logThreads) && Wide(inst, 0)
    requires |challenges| < inst.numVars && CharacteristicAbove(K, inst.maxDegree)
    ensures DistributedMessage(K, inst, logThreads, challenges) == DistributedMessage(K, inst, 0, challenges)
  {
    hide *;
    DistributedMessageExact(K, inst, logThreads, challenges);
    DistributedMessageExact(K, inst, 0, challenges);
  }
}

/** Whole runs of the distributed prover: registering and splitting the tables, the rounds of the first
    phase, the merge, and the rounds of the second phase. */
module ProverPhases {
  import opened Fields
  import opened Sums
  import opened Interpolation
  import opened Multilinear
  import opened HypercubeSums
  import opened MixedArity
  import opened SplitTables
  import opened RoundEvaluator
  import opened ProverRounds
  import opened DistributedProver

  // ---------- fixing a variable on every worker ----------

  lemma SystemNonEmpty<T>(job: Job<T>, arities: seq<nat>, left: nat, workers: seq<seq<seq<T>>>, w: nat)
    requires System(job, arities, left, workers) && w < |workers|
    ensures |workers[w]| == |job.meta| == |arities| && forall i :: 0 <= i < |workers[w]| ==> |workers[w][i]| > 0
  {
    hide Pow2;
    assert ValidTables(job, arities, left, workers[w]);
    forall i | 0 <= i < |workers[w]| ensures |workers[w][i]| > 0 {
      Pow2Positive(CurrentArity(job.meta[i], arities[i], left));
    }
  }

  function FixWorkers<T>(K: Field<T>, job: Job<T>, ghost arities: seq<nat>, left: nat, workers: seq<seq<seq<T>>>,
                         r: T): (gs: seq<seq<seq<T>>>)
    requires System(job, arities, left, workers)
    ensures |gs| == |workers|
    ensures forall w :: 0 <= w < |gs| ==>
              (SystemNonEmpty(job, arities, left, workers, w); gs[w] == FixVar(K, job.meta, left, workers[w], r))
  {
    seq(|workers|, w requires 0 <= w < |workers| =>
      SystemNonEmpty(job, arities, left, workers, w);
      FixVar(K, job.meta, left, workers[w], r))
  }

  lemma FixWorkersSystem<T>(K: Field<T>, job: Job<T>, arities: seq<nat>, left: nat, workers: seq<seq<seq<T>>>, r: T)
    requires System(job, arities, left, workers) && left > 0
    ensures System(job, arities, left - 1, FixWorkers(K, job, arities, left, workers, r))
  {
    hide ValidTables, Fold, Pow2, CeilLog2;
    var gs := FixWorkers(K, job, arities, left, workers, r);
    forall w | 0 <= w < |gs| ensures ValidTables(job, arities, left - 1, gs[w]) {
      SystemNonEmpty(job, arities, left, workers, w);
      FixVarValid(K, job, arities, left, workers[w], r);
    }
    forall w | 0 <= w < |gs| ensures |gs[w]| == |workers[w]| == |arities| == |job.meta| {
      SystemNonEmpty(job, arities, left, workers, w);
    }
    forall w, i | 0 <= w < |gs| && 0 <= i < |arities| && job.meta[i].Phase2Only? ensures gs[w][i] == gs[0][i] {
      SystemNonEmpty(job, arities, left, workers, w);
      SystemNonEmpty(job, arities, left, workers, 0);
      assert workers[w][i] == workers[0][i];
    }
  }

  lemma {:induction false} FoldDummy<T(!new)>(K: Field<T>, workers: seq<seq<seq<T>>>, i: nat, q: nat, r: T)
    requires Lawful(K) && q > 0 && forall w :: 0 <= w < |workers| ==> i < |workers[w]|
    ensures Fold(K, Concatenated(workers, i, 2 * q), r) == Concatenated(workers, i, q)
  {
    hide Repeat, Fold;
    if workers == [] {
      FoldEmpty(K, r);
    } else {
      var f := workers[0][i];
      FoldDummy(K, workers[1..], i, q, r);
      assert |f| * (2 * q) == 2 * (|f| * q);
      FoldConcat(K, Repeat(f, 2 * q), Concatenated(workers[1..], i, 2 * q), r);
      FoldRepeat(K, f, q, r);
    }
  }

  lemma FoldEmpty<T>(K: Field<T>, r: T)
    ensures Fold(K, [], r) == []
  {
  }

  lemma {:induction false} FoldChunks<T(!new)>(K: Field<T>, workers: seq<seq<seq<T>>>, folded: seq<seq<seq<T>>>,
                                               i: nat, r: T)
    requires |folded| == |workers|
    requires forall w :: 0 <= w < |workers| ==> i < |workers[w]| && |workers[w][i]| % 2 == 0
    requires forall w :: 0 <= w < |workers| ==> i < |folded[w]| && folded[w][i] == Fold(K, workers[w][i], r)
    ensures Fold(K, Concatenated(workers, i, 1), r) == Concatenated(folded, i, 1)
  {
    hide Repeat, Fold;
    if workers == [] {
      FoldEmpty(K, r);
    } else {
      FoldChunks(K, workers[1..], folded[1..], i, r);
      FoldConcat(K, workers[0][i], Concatenated(workers[1..], i, 1), r);
      RepeatOnce(workers[0][i]);
      RepeatOnce(folded[0][i]);
    }
  }

  lemma {:induction false} SameChunks<T>(workers: seq<seq<seq<T>>>, others: seq<seq<seq<T>>>, i: nat, q: nat)
    requires |others| == |workers|
    requires forall w :: 0 <= w < |workers| ==> i < |workers[w]| && i < |others[w]| && others[w][i] == workers[w][i]
    ensures Concatenated(others, i, q) == Concatenated(workers, i, q)
  {
    if workers != [] { SameChunks(workers[1..], others[1..], i, q); }
  }

  lemma FixWholeTable<T(!new)>(K: Field<T>, job: Job<T>, arities: seq<nat>, left: nat, workers: seq<seq<seq<T>>>, r: T,
                               i: nat)
    requires Lawful(K) && System(job, arities, left, workers) && left > 0 && i < |arities|
    ensures System(job, arities, left - 1, FixWorkers(K, job, arities, left, workers, r))
    ensures WholeTable(job, arities, left - 1, FixWorkers(K, job, arities, left, workers, r), i)
         == Fold(K, WholeTable(job, arities, left, workers, i), r)
  {
    hide Fold, Repeat, Pow2, CeilLog2, Concatenated;
    FixWorkersSystem(K, job, arities, left, workers, r);
    var gs := FixWorkers(K, job, arities, left, workers, r);
    Pow2Positive(job.phase2NumVars);
    forall w | 0 <= w < |workers|
      ensures |workers[w]| == |gs[w]| == |arities|
      ensures CeilLog2(|workers[w][i]|) == CurrentArity(job.meta[i], arities[i], left)
      ensures |workers[w][i]| == Pow2(CurrentArity(job.meta[i], arities[i], left)) > 0
    {
      assert ValidTables(job, arities, left, workers[w]);
      SystemNonEmpty(job, arities, left, workers, w);
      CeilLog2Exact(CurrentArity(job.meta[i], arities[i], left));
    }
    if job.meta[i].Phase2Only? {
      var q := left - 1 + job.phase2NumVars - arities[i];
      Pow2Even(q + 1);
      Pow2Positive(q);
      FoldRepeat(K, workers[0][i], Pow2(q), r);
    } else if arities[i] < left {
      var q := left - 1 - arities[i];
      Pow2Even(q + 1);
      Pow2Positive(q);
      SameChunks(workers, gs, i, Pow2(q));
      FoldDummy(K, workers, i, Pow2(q), r);
    } else {
      Pow2Even(left);
      Pow2Zero();
      FoldChunks(K, workers, gs, i, r);
    }
  }

  lemma Pow2Zero()
    ensures Pow2(0) == 1
  {
  }

  /** Fixing a variable on every worker fixes it in the unsplit tables. */
  lemma FixWorkersExact<T(!new)>(K: Field<T>, job: Job<T>, arities: seq<nat>, left: nat, workers: seq<seq<seq<T>>>,
                                 r: T)
    requires Lawful(K) && System(job, arities, left, workers) && left > 0
    ensures System(job, arities, left - 1, FixWorkers(K, job, arities, left, workers, r))
    ensures WholeTables(job, arities, left - 1, FixWorkers(K, job, arities, left, workers, r))
         == FoldAll(K, WholeTables(job, arities, left, workers), r)
  {
    hide WholeTable, Fold, System;
    FixWorkersSystem(K, job, arities, left, workers, r);
    forall i | 0 <= i < |arities|
      ensures WholeTable(job, arities, left - 1, FixWorkers(K, job, arities, left, workers, r), i)
           == Fold(K, WholeTable(job, arities, left, workers, i), r)
    {
      FixWholeTable(K, job, arities, left, workers, r, i);
    }
  }
}

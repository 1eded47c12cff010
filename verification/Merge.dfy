/** The merge between the two phases of the distributed prover. */
module Merge {
  import opened Wrappers
  import opened Fields
  import opened Sums
  import opened Interpolation
  import opened Multilinear
  import opened HypercubeSums
  import opened MixedArity
  import opened RoundEvaluator
  import opened ProverRounds
  import opened DistributedProver
  import opened ProverPhases
  import opened Registration

  /** The number of variables after the merge: those left in the first split table plus one per halving of
      the workers, or the largest arity when no table is split. */
  function MergedNumVars<T>(meta: seq<PolyMeta>, tables: seq<seq<T>>, logThreads: nat): nat
    requires |meta| == |tables| && forall i :: 0 <= i < |tables| ==> |tables[i]| > 0
  {
    if exists i :: 0 <= i < |meta| && meta[i].Normal?
    then var i := FirstNormal(meta, 0); CeilLog2(|tables[i]|) + logThreads
    else MaxNumVars(tables)
  }

  function FirstNormal(meta: seq<PolyMeta>, from: nat): (i: nat)
    requires exists i :: from <= i < |meta| && meta[i].Normal?
    ensures from <= i < |meta| && meta[i].Normal?
    decreases |meta| - from
  {
    if meta[from].Normal? then from else FirstNormal(meta, from + 1)
  }

  function MaxNumVars<T>(tables: seq<seq<T>>): nat
    requires forall i :: 0 <= i < |tables| ==> |tables[i]| > 0
  {
    if tables == [] then 0 else
      var m := MaxNumVars(tables[..|tables| - 1]);
      var n := CeilLog2(|tables[|tables| - 1]|);
      if n >= m then n else m
  }

  /** `merge_sumcheck_polys`: split tables are put together in the order of the workers, duplicated tables
      are taken from the first worker and repeated up to the merged number of variables. */
  function Merged<T>(meta: seq<PolyMeta>, workers: seq<seq<seq<T>>>, numVars: nat): (r: seq<seq<T>>)
    requires workers != [] && forall w :: 0 <= w < |workers| ==> |workers[w]| == |meta|
    requires forall i :: 0 <= i < |meta| ==> |workers[0][i]| > 0
    ensures |r| == |meta|
    ensures forall i :: 0 <= i < |r| ==>
              (r[i] == if meta[i].Normal? then Concatenated(workers, i, 1)
                       else Repeat(workers[0][i], Pow2(SaturatingSub(numVars, CeilLog2(|workers[0][i]|)))))
  {
    seq(|meta|, i requires 0 <= i < |meta| =>
      if meta[i].Normal? then Concatenated(workers, i, 1)
      else Repeat(workers[0][i], Pow2(SaturatingSub(numVars, CeilLog2(|workers[0][i]|)))))
  }

  /** The assertions of the merge: there is a table, duplicated tables have no more variables than the second phase, and
      every merged table has two to the merged number of variables many entries. */
  ghost predicate Mergeable<T>(meta: seq<PolyMeta>, workers: seq<seq<seq<T>>>, logThreads: nat)
    requires workers != [] && forall w :: 0 <= w < |workers| ==> |workers[w]| == |meta|
    requires forall i :: 0 <= i < |meta| ==> |workers[0][i]| > 0
  {
    var numVars := MergedNumVars(meta, workers[0], logThreads);
    && meta != []
    && forall i :: 0 <= i < |meta| ==>
        TableMerges(meta[i], |workers[0][i]|, |Merged(meta, workers, numVars)[i]|, numVars, logThreads)
  }

  predicate TableMerges(meta: PolyMeta, size: nat, mergedSize: nat, numVars: nat, logThreads: nat)
    requires size > 0
  {
    (meta.Phase2Only? ==> CeilLog2(size) <= logThreads) && mergedSize == Pow2(numVars)
  }

  /** None is a failed assertion. */
  method MergeSumcheckPolys<T>(meta: seq<PolyMeta>, workers: seq<seq<seq<T>>>, ghost logThreads: nat)
      returns (r: Option<(nat, seq<seq<T>>)>)
    requires |workers| == Pow2(logThreads) > 0 && forall w :: 0 <= w < |workers| ==> |workers[w]| == |meta|
    requires forall i :: 0 <= i < |meta| ==> |workers[0][i]| > 0
    ensures r.Some? <==> Mergeable(meta, workers, logThreads)
    ensures r.Some? ==>
              && r.value.0 == MergedNumVars(meta, workers[0], logThreads) &&
                  r.value.1 == Merged(meta, workers, r.value.0)
              && forall i :: 0 <= i < |meta| && meta[i].Phase2Only? ==> CeilLog2(|workers[0][i]|) <= r.value.0
  {
    hide Concatenated, Repeat, Pow2, CeilLog2;
    CeilLog2Exact(logThreads);
    if meta == [] {
      return None;
    }
    var logLen := CeilLog2(|workers|);
    var numVars := MergedNumVars(meta, workers[0], logLen);
    var merged: seq<seq<T>> := [];
    for i := 0 to |meta|
      invariant merged == Merged(meta, workers, numVars)[..i]
      invariant forall j :: 0 <= j < i ==> TableMerges(meta[j], |workers[0][j]|, |merged[j]|, numVars, logThreads)
      invariant forall j :: 0 <= j < i && meta[j].Phase2Only? ==> CeilLog2(|workers[0][j]|) <= numVars
    {
      var table: seq<T>;
      if meta[i].Normal? {
        table := JoinChunks(workers, i);
      } else {
        if CeilLog2(|workers[0][i]|) > logLen {
          assert !TableMerges(meta[i], |workers[0][i]|, |Merged(meta, workers, numVars)[i]|, numVars, logThreads);
          return None;
        }
        ShiftFits(meta, workers[0], logThreads, i);
        table := RepeatEntries(workers[0][i], Pow2(SaturatingSub(numVars, CeilLog2(|workers[0][i]|))));
      }
      assert table == Merged(meta, workers, numVars)[i];
      if |table| != Pow2(numVars) {
        assert !TableMerges(meta[i], |workers[0][i]|, |Merged(meta, workers, numVars)[i]|, numVars, logThreads);
        return None;
      }
      merged := merged + [table];
    }
    assert Merged(meta, workers, numVars)[..|meta|] == Merged(meta, workers, numVars);
    r := Some((numVars, merged));
  }

  /** The shift that gives the number of repetitions is never negative. */
  lemma ShiftFits<T>(meta: seq<PolyMeta>, tables: seq<seq<T>>, logThreads: nat, i: nat)
    requires |meta| == |tables| && (forall j :: 0 <= j < |tables| ==> |tables[j]| > 0) && i < |meta|
    requires meta[i].Phase2Only? && CeilLog2(|tables[i]|) <= logThreads
    ensures CeilLog2(|tables[i]|) <= MergedNumVars(meta, tables, logThreads)
  {
    hide CeilLog2;
    if !exists j :: 0 <= j < |meta| && meta[j].Normal? { MaxNumVarsAbove(tables, i); }
  }

  lemma {:induction false} MaxNumVarsAbove<T>(tables: seq<seq<T>>, i: nat)
    requires (forall j :: 0 <= j < |tables| ==> |tables[j]| > 0) && i < |tables|
    ensures CeilLog2(|tables[i]|) <= MaxNumVars(tables)
  {
    hide CeilLog2;
    if i < |tables| - 1 { MaxNumVarsAbove(tables[..|tables| - 1], i); }
  }

  method JoinChunks<T>(workers: seq<seq<seq<T>>>, i: nat) returns (table: seq<T>)
    requires forall w :: 0 <= w < |workers| ==> i < |workers[w]|
    ensures table == Concatenated(workers, i, 1)
  {
    table := [];
    for w := 0 to |workers|
      invariant table + Concatenated(workers[w..], i, 1) == Concatenated(workers, i, 1)
    {
      hide Repeat;
      RepeatOnce(workers[w][i]);
      assert workers[w..][1..] == workers[w + 1..];
      assert table + (workers[w][i] + Concatenated(workers[w + 1..], i, 1))
          == (table + workers[w][i]) + Concatenated(workers[w + 1..], i, 1);
      table := table + workers[w][i];
    }
    assert table + [] == table;
  }

  method RepeatEntries<T>(poly: seq<T>, blowup: nat) returns (table: seq<T>)
    ensures table == Repeat(poly, blowup)
  {
    table := [];
    for e := 0 to |poly|
      invariant table == Repeat(poly[..e], blowup)
    {
      assert poly[..e + 1] == poly[..e] + [poly[e]];
      RepeatConcat(poly[..e], [poly[e]], blowup);
      assert [poly[e]][1..] == [];
      table := table + seq(blowup, _ => poly[e]);
    }
    assert poly[..|poly|] == poly;
  }

  /** Some table has at least as many variables as the second phase; without one the second phase panics. */
  ghost predicate Wide<T>(inst: Instance<T>, logThreads: nat) {
    exists i :: 0 <= i < |inst.arities| && inst.arities[i] >= logThreads
  }

  lemma {:induction false} MaxNumVarsExact<T>(tables: seq<seq<T>>, arities: seq<nat>, top: nat)
    requires |tables| == |arities| && forall i :: 0 <= i < |tables| ==> |tables[i]| == Pow2(arities[i])
    requires forall i :: 0 <= i < |arities| ==> arities[i] <= top
    ensures forall i :: 0 <= i < |tables| ==> |tables[i]| > 0
    ensures MaxNumVars(tables) <= top
    ensures (exists i :: 0 <= i < |arities| && arities[i] == top) ==> MaxNumVars(tables) == top
  {
    hide Pow2, CeilLog2;
    forall i | 0 <= i < |tables| ensures |tables[i]| > 0 { Pow2Positive(arities[i]); }
    if tables != [] {
      var last := |tables| - 1;
      MaxNumVarsExact(tables[..last], arities[..last], top);
      Pow2Positive(arities[last]);
      CeilLog2Exact(arities[last]);
      if i :| 0 <= i < |arities| && arities[i] == top {
        if i < last { assert arities[..last][i] == top; }
      }
    }
  }

  /** After the first phase every worker's split tables are single entries, and the merged polynomial has
      one variable per halving of the workers. */
  lemma MergedSize<T>(inst: Instance<T>, logThreads: nat, workers: seq<seq<seq<T>>>)
    requires ValidInstance(inst) && logThreads <= inst.numVars && Wide(inst, logThreads)
    requires System(RegisteredJob(inst, logThreads), WorkerArities(inst, logThreads), 0, workers)
    ensures workers != [] && |workers[0]| == |inst.arities| && forall i :: 0 <= i < |workers[0]| ==> |workers[0][i]| > 0
    ensures MergedNumVars(RegisteredJob(inst, logThreads).meta, workers[0], logThreads) == logThreads
  {
    hide Pow2, CeilLog2;
    var job, arities := RegisteredJob(inst, logThreads), WorkerArities(inst, logThreads);
    Pow2Positive(logThreads);
    SystemNonEmpty(job, arities, 0, workers, 0);
    assert ValidTables(job, arities, 0, workers[0]);
    if exists i :: 0 <= i < |job.meta| && job.meta[i].Normal? {
      CeilLog2Exact(0);
    } else {
      forall i | 0 <= i < |arities| ensures inst.arities[i] == arities[i] <= logThreads {
        assert !job.meta[i].Normal?;
      }
      var i :| 0 <= i < |inst.arities| && inst.arities[i] >= logThreads;
      assert arities[i] == logThreads;
      MaxNumVarsExact(workers[0], arities, logThreads);
    }
  }

  /** The merged polynomial has the variables of the second phase exactly when some table is wide enough, and fewer
      otherwise. */
  lemma MergedSizeExact<T>(inst: Instance<T>, logThreads: nat, workers: seq<seq<seq<T>>>)
    requires ValidInstance(inst) && 0 < logThreads <= inst.numVars
    requires System(RegisteredJob(inst, logThreads), WorkerArities(inst, logThreads), 0, workers)
    ensures workers != [] && |workers[0]| == |inst.arities| && forall i :: 0 <= i < |workers[0]| ==> |workers[0][i]| > 0
    ensures MergedNumVars(RegisteredJob(inst, logThreads).meta, workers[0], logThreads) == logThreads <==>
              Wide(inst, logThreads)
    ensures MergedNumVars(RegisteredJob(inst, logThreads).meta, workers[0], logThreads) <= logThreads
  {
    hide Pow2, CeilLog2;
    var job, arities := RegisteredJob(inst, logThreads), WorkerArities(inst, logThreads);
    if Wide(inst, logThreads) {
      MergedSize(inst, logThreads, workers);
    } else {
      Pow2Positive(logThreads);
      SystemNonEmpty(job, arities, 0, workers, 0);
      assert ValidTables(job, arities, 0, workers[0]);
      forall i | 0 <= i < |arities| ensures job.meta[i].Phase2Only? && arities[i] < logThreads {
        assert !(inst.arities[i] >= logThreads);
      }
      MaxNumVarsExact(workers[0], arities, logThreads - 1);
    }
  }

  /** After the first phase the merge never fails, as long as there is a table. */
  lemma SystemMergeable<T>(inst: Instance<T>, logThreads: nat, workers: seq<seq<seq<T>>>)
    requires ValidInstance(inst) && logThreads <= inst.numVars && inst.arities != []
    requires System(RegisteredJob(inst, logThreads), WorkerArities(inst, logThreads), 0, workers)
    ensures workers != [] && |workers| == Pow2(logThreads) > 0
    ensures forall w :: 0 <= w < |workers| ==> |workers[w]| == |inst.arities|
    ensures forall i :: 0 <= i < |inst.arities| ==> |workers[0][i]| > 0
    ensures Mergeable(RegisteredJob(inst, logThreads).meta, workers, logThreads)
    ensures MergedNumVars(RegisteredJob(inst, logThreads).meta, workers[0], logThreads) > 0 || logThreads == 0
  {
    hide Pow2, CeilLog2, Merged, MergedNumVars, ValidInstance, TableMerges;
    var job, arities := RegisteredJob(inst, logThreads), WorkerArities(inst, logThreads);
    Pow2Positive(logThreads);
    MergedTableSize(job, arities, workers, 0);
    var numVars := MergedNumVars(job.meta, workers[0], logThreads);
    forall i | 0 <= i < |arities|
      ensures TableMerges(job.meta[i], |workers[0][i]|, |Merged(job.meta, workers, numVars)[i]|, numVars, logThreads)
    {
      MergedTableSize(job, arities, workers, i);
    }
  }

  lemma MergedTableSize<T>(job: Job<T>, arities: seq<nat>, workers: seq<seq<seq<T>>>, i: nat)
    requires System(job, arities, 0, workers) && i < |arities|
    ensures workers != [] && forall w :: 0 <= w < |workers| ==> |workers[w]| == |job.meta|
    ensures forall j :: 0 <= j < |job.meta| ==> |workers[0][j]| > 0
    ensures var numVars := MergedNumVars(job.meta, workers[0], job.phase2NumVars);
            && TableMerges(job.meta[i], |workers[0][i]|, |Merged(job.meta, workers, numVars)[i]|, numVars,
                           job.phase2NumVars)
            && (numVars > 0 || job.phase2NumVars == 0)
  {
    hide Pow2, CeilLog2, Repeat, Concatenated;
    var L := job.phase2NumVars;
    MergedWhole(job, arities, workers);
    SystemNonEmpty(job, arities, 0, workers, 0);
    assert ValidTables(job, arities, 0, workers[0]);
    CeilLog2Exact(0);
    Pow2Zero();
    CeilLog2Exact(CurrentArity(job.meta[i], arities[i], 0));
    if exists j :: 0 <= j < |job.meta| && job.meta[j].Normal? {
      WholeTableSize(job, arities, 0, workers, i);
    } else {
      var numVars := MaxNumVars(workers[0]);
      MaxNumVarsAbove(workers[0], i);
      Pow2Add(arities[i], numVars - arities[i]);
      assert |workers[0][i]| == Pow2(arities[i]);
    }
  }

  /** The merge gives exactly the tables of the single prover. */
  lemma MergedWhole<T>(job: Job<T>, arities: seq<nat>, workers: seq<seq<seq<T>>>)
    requires System(job, arities, 0, workers)
    ensures workers != [] && forall w :: 0 <= w < |workers| ==> |workers[w]| == |job.meta|
    ensures forall i :: 0 <= i < |job.meta| ==> |workers[0][i]| > 0
    ensures Merged(job.meta, workers, job.phase2NumVars) == WholeTables(job, arities, 0, workers)
  {
    hide Pow2, CeilLog2, Repeat, Concatenated;
    Pow2Positive(job.phase2NumVars);
    Pow2Zero();
    forall w | 0 <= w < |workers|
        ensures |workers[w]| == |job.meta| == |arities| { SystemNonEmpty(job, arities, 0, workers, w); }
    SystemNonEmpty(job, arities, 0, workers, 0);
    assert ValidTables(job, arities, 0, workers[0]);
    forall i | 0 <= i < |arities|
      ensures Merged(job.meta, workers, job.phase2NumVars)[i] == WholeTable(job, arities, 0, workers, i)
    {
      CeilLog2Exact(CurrentArity(job.meta[i], arities[i], 0));
    }
  }
}

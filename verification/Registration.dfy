/** A virtual polynomial and its registration on a power-of-two number of workers: large tables are split into
    contiguous chunks, small ones are duplicated. */
module Registration {
  import opened Fields
  import opened Sums
  import opened Interpolation
  import opened Multilinear
  import opened HypercubeSums
  import opened MixedArity
  import opened RoundEvaluator
  import opened ProverRounds
  import opened DistributedProver
  import opened ProverPhases

  /** A sum of products of multilinear tables with numVars variables at most. */
  datatype Instance<T> = Instance(terms: seq<Term<T>>, mles: seq<seq<T>>, arities: seq<nat>, maxDegree: nat,
                                  numVars: nat)

  /** Tables have at least one variable, and the factors of one product have equally many. */
  ghost predicate ValidInstance<T>(inst: Instance<T>) {
    && inst.numVars > 0 && |inst.mles| == |inst.arities|
    && (forall i :: 0 <= i < |inst.mles| ==>
        |inst.mles[i]| == Pow2(inst.arities[i]) && 0 < inst.arities[i] <= inst.numVars)
    && (forall i :: 0 <= i < |inst.terms| ==> EqualArities(inst, inst.terms[i].product))
  }

  ghost predicate EqualArities<T>(inst: Instance<T>, product: seq<nat>) {
    && 0 < |product| <= inst.maxDegree && (forall j :: 0 <= j < |product| ==> product[j] < |inst.arities|)
    && (forall j :: 0 <= j < |product| ==> inst.arities[product[j]] == inst.arities[product[0]])
  }

  /** Every table read as one with numVars variables: a missing low variable repeats the entries. */
  function Padded<T>(inst: Instance<T>): (r: seq<seq<T>>)
    requires ValidInstance(inst)
    ensures |r| == |inst.mles|
    ensures forall i :: 0 <= i < |r| ==> r[i] == Repeat(inst.mles[i], Pow2(inst.numVars - inst.arities[i]))
  {
    seq(|inst.mles|, i requires 0 <= i < |inst.mles| => Repeat(inst.mles[i], Pow2(inst.numVars - inst.arities[i])))
  }

  function Meta(arity: nat, logThreads: nat): PolyMeta {
    if arity > logThreads then Normal else Phase2Only
  }

  function WorkerArity(arity: nat, logThreads: nat): nat {
    if arity > logThreads then arity - logThreads else arity
  }

  function RegisteredJob<T>(inst: Instance<T>, logThreads: nat): (job: Job<T>)
    ensures |job.meta| == |inst.arities| && forall i :: 0 <= i < |job.meta| ==>
              job.meta[i] == Meta(inst.arities[i], logThreads)
    ensures job.terms == inst.terms && job.maxDegree == inst.maxDegree && job.phase2NumVars == logThreads
  {
    Job(inst.terms, seq(|inst.arities|, i requires 0 <= i < |inst.arities| => Meta(inst.arities[i], logThreads)),
        inst.maxDegree, logThreads)
  }

  function WorkerArities<T>(inst: Instance<T>, logThreads: nat): (r: seq<nat>)
    ensures |r| == |inst.arities| && forall i :: 0 <= i < |r| ==> r[i] == WorkerArity(inst.arities[i], logThreads)
  {
    seq(|inst.arities|, i requires 0 <= i < |inst.arities| => WorkerArity(inst.arities[i], logThreads))
  }

  /** What worker w holds of one table: a contiguous chunk of a large table, a copy of a small one. */
  function View<T>(f: seq<T>, arity: nat, logThreads: nat, w: nat): (r: seq<T>)
    requires |f| == Pow2(arity) && w < Pow2(logThreads)
    ensures |r| == Pow2(WorkerArity(arity, logThreads))
  {
    if arity > logThreads then
      ChunkBounds(arity, logThreads, w);
      f[w * Pow2(arity - logThreads)..(w + 1) * Pow2(arity - logThreads)]
    else f
  }

  lemma ChunkBounds(arity: nat, logThreads: nat, w: nat)
    requires arity >= logThreads && w < Pow2(logThreads)
    ensures 0 <= w * Pow2(arity - logThreads) <= (w + 1) * Pow2(arity - logThreads) <= Pow2(arity)
    ensures (w + 1) * Pow2(arity - logThreads) == w * Pow2(arity - logThreads) + Pow2(arity - logThreads)
  {
    Pow2Add(logThreads, arity - logThreads);
    MulOrder(w + 1, Pow2(logThreads), Pow2(arity - logThreads));
  }

  function Views<T>(mles: seq<seq<T>>, arities: seq<nat>, logThreads: nat, w: nat): (r: seq<seq<T>>)
    requires |mles| == |arities| && w < Pow2(logThreads)
    requires forall i :: 0 <= i < |mles| ==> |mles[i]| == Pow2(arities[i])
    ensures |r| == |mles| && forall i :: 0 <= i < |r| ==> r[i] == View(mles[i], arities[i], logThreads, w)
  {
    seq(|mles|, i requires 0 <= i < |mles| => View(mles[i], arities[i], logThreads, w))
  }

  function Registered<T>(inst: Instance<T>, logThreads: nat): (r: seq<seq<seq<T>>>)
    requires ValidInstance(inst)
    ensures |r| == Pow2(logThreads)
    ensures forall w :: 0 <= w < |r| ==> r[w] == Views(inst.mles, inst.arities, logThreads, w)
  {
    seq(Pow2(logThreads), w requires 0 <= w < Pow2(logThreads) => Views(inst.mles, inst.arities, logThreads, w))
  }

  lemma RegisteredSystem<T>(inst: Instance<T>, logThreads: nat)
    requires ValidInstance(inst) && logThreads <= inst.numVars
    ensures System(RegisteredJob(inst, logThreads), WorkerArities(inst, logThreads), inst.numVars - logThreads,
                   Registered(inst, logThreads))
  {
    hide Pow2, View;
    var job, arities, left := RegisteredJob(inst, logThreads), WorkerArities(inst, logThreads),
        inst.numVars - logThreads;
    forall i | 0 <= i < |job.terms| ensures ValidProduct(job, arities, job.terms[i].product) {
      assert EqualArities(inst, inst.terms[i].product);
    }
    forall w | 0 <= w < Pow2(logThreads) ensures ValidTables(job, arities, left, Registered(inst, logThreads)[w]) {
      assert Registered(inst, logThreads)[w] == Views(inst.mles, inst.arities, logThreads, w);
    }
    Pow2Positive(logThreads);
    forall w, i | 0 <= w < Pow2(logThreads) && 0 <= i < |arities| && job.meta[i].Phase2Only?
      ensures Registered(inst, logThreads)[w][i] == Registered(inst, logThreads)[0][i]
    {
      SmallView(inst.mles[i], inst.arities[i], logThreads, w);
      SmallView(inst.mles[i], inst.arities[i], logThreads, 0);
    }
  }

  lemma SmallView<T>(f: seq<T>, arity: nat, logThreads: nat, w: nat)
    requires |f| == Pow2(arity) && w < Pow2(logThreads) && arity <= logThreads
    ensures View(f, arity, logThreads, w) == f
  {
  }

  lemma {:induction false} RepeatConcat<T>(s: seq<T>, t: seq<T>, m: nat)
    ensures Repeat(s + t, m) == Repeat(s, m) + Repeat(t, m)
  {
    if s == [] {
      assert s + t == t;
    } else {
      assert (s + t)[1..] == s[1..] + t;
      RepeatConcat(s[1..], t, m);
    }
  }

  /** The chunks of a large table in the order of the workers are the table. */
  lemma {:induction false} ChunksJoin<T>(f: seq<T>, arity: nat, logThreads: nat, workers: seq<seq<seq<T>>>, i: nat,
                                         q: nat, w: nat)
    requires |f| == Pow2(arity) && arity > logThreads && w + |workers| == Pow2(logThreads)
    requires forall v :: 0 <= v < |workers| ==> i < |workers[v]| && workers[v][i] == View(f, arity, logThreads, w + v)
    ensures w * Pow2(arity - logThreads) <= |f|
    ensures Concatenated(workers, i, q) == Repeat(f[w * Pow2(arity - logThreads)..], q)
  {
    hide Repeat, Pow2;
    var s := Pow2(arity - logThreads);
    Pow2Add(logThreads, arity - logThreads);
    if workers == [] {
      RepeatEmpty<T>(q);
    } else {
      ChunkBounds(arity, logThreads, w);
      forall v | 0 <= v < |workers| - 1
        ensures i < |workers[1..][v]| && workers[1..][v][i] == View(f, arity, logThreads, w + 1 + v)
      {
        assert workers[1..][v] == workers[v + 1];
      }
      ChunksJoin(f, arity, logThreads, workers[1..], i, q, w + 1);
      assert workers[0][i] == f[w * s..(w + 1) * s];
      assert f[w * s..] == f[w * s..(w + 1) * s] + f[(w + 1) * s..];
      RepeatConcat(f[w * s..(w + 1) * s], f[(w + 1) * s..], q);
    }
  }

  lemma RepeatEmpty<T>(q: nat)
    ensures Repeat<T>([], q) == []
  {
  }

  /** Before the first round the workers together hold exactly the padded tables. */
  lemma RegisteredWhole<T>(inst: Instance<T>, logThreads: nat)
    requires ValidInstance(inst) && logThreads <= inst.numVars
    ensures System(RegisteredJob(inst, logThreads), WorkerArities(inst, logThreads), inst.numVars - logThreads,
                   Registered(inst, logThreads))
    ensures WholeTables(RegisteredJob(inst, logThreads), WorkerArities(inst, logThreads), inst.numVars - logThreads,
                        Registered(inst, logThreads))
         == Padded(inst)
  {
    hide Repeat, Pow2, View, Concatenated, System;
    RegisteredSystem(inst, logThreads);
    Pow2Positive(logThreads);
    var workers := Registered(inst, logThreads);
    forall i | 0 <= i < |inst.mles|
      ensures WholeTable(RegisteredJob(inst, logThreads), WorkerArities(inst, logThreads), inst.numVars - logThreads,
                         workers, i)
           == Padded(inst)[i]
    {
      var f, arity := inst.mles[i], inst.arities[i];
      if arity > logThreads {
        ChunksJoin(f, arity, logThreads, workers, i, Pow2(inst.numVars - arity), 0);
        assert f[0 * Pow2(arity - logThreads)..] == f;
      } else {
        SmallView(f, arity, logThreads, 0);
      }
    }
  }
}

/** What the first phase computes: under every interleaving the main thread adds up one message per thread and
    round, whatever the order of arrival, and every thread sees the same challenges. */
module ChannelResults {
  import opened Fields
  import opened Sums
  import opened HypercubeSums
  import opened SplitTables
  import opened Transcripts
  import opened RollingChannels

  /** The messages of all threads for the same challenges, in the order of the threads. */
  function LocalMessages<T(!new)>(c: Config<T>, challenges: seq<T>): (r: seq<seq<T>>)
    ensures |r| == c.workers + 1 && forall w :: 0 <= w < |r| ==> r[w] == c.local(w, challenges)
  {
    seq(c.workers + 1, w requires 0 <= w => c.local(w, challenges))
  }

  /** Entry i of the messages of the listed threads. */
  function Entries<T(!new)>(c: Config<T>, challenges: seq<T>, i: nat, ws: seq<nat>): (r: seq<T>)
    requires forall w: nat :: i < |c.local(w, challenges)|
    ensures |r| == |ws| && forall j :: 0 <= j < |r| ==> r[j] == c.local(ws[j], challenges)[i]
  {
    seq(|ws|, j requires 0 <= j < |ws| => c.local(ws[j], challenges)[i])
  }

  function Range(n: nat): (r: seq<nat>)
    ensures |r| == n && forall i :: 0 <= i < n ==> r[i] == i
  {
    seq(n, i requires 0 <= i => i)
  }

  lemma EntriesConcat<T(!new)>(c: Config<T>, challenges: seq<T>, i: nat, a: seq<nat>, b: seq<nat>)
    requires Lawful(c.K) && forall w: nat :: i < |c.local(w, challenges)|
    ensures c.K.Sum(Entries(c, challenges, i, a + b))
              == c.K.Add(c.K.Sum(Entries(c, challenges, i, a)), c.K.Sum(Entries(c, challenges, i, b)))
  {
    hide Field<T>.Sum;
    assert Entries(c, challenges, i, a + b) == Entries(c, challenges, i, a) + Entries(c, challenges, i, b);
    SumConcat(c.K, Entries(c, challenges, i, a), Entries(c, challenges, i, b));
  }

  /** Moving one thread to the end of the list. */
  lemma MoveLast<T(!new)>(c: Config<T>, challenges: seq<T>, i: nat, a: seq<nat>, w: nat, b: seq<nat>)
    requires Lawful(c.K) && forall w: nat :: i < |c.local(w, challenges)|
    ensures c.K.Sum(Entries(c, challenges, i, a + [w] + b)) == c.K.Sum(Entries(c, challenges, i, a + b + [w]))
  {
    var ea, eb, ew := c.K.Sum(Entries(c, challenges, i, a)), c.K.Sum(Entries(c, challenges, i, b)),
        c.K.Sum(Entries(c, challenges, i, [w]));
    EntriesConcat(c, challenges, i, a, [w]);
    EntriesConcat(c, challenges, i, a + [w], b);
    EntriesConcat(c, challenges, i, a, b);
    EntriesConcat(c, challenges, i, a + b, [w]);
    hide *;
    AddAssoc(c.K, ea, ew, eb);
    AddComm(c.K, ew, eb);
    AddAssoc(c.K, ea, eb, ew);
  }

  /** The order of arrival does not matter. */
  lemma {:induction false} SumAnyOrder<T(!new)>(c: Config<T>, challenges: seq<T>, i: nat, ws: seq<nat>, n: nat)
    requires Lawful(c.K) && NoRepeat(ws, n) && |ws| == n && forall w: nat :: i < |c.local(w, challenges)|
    ensures c.K.Sum(Entries(c, challenges, i, ws)) == c.K.Sum(Entries(c, challenges, i, Range(n)))
    decreases n
  {
    hide Field<T>.Sum, Entries;
    if n == 0 {
      assert ws == Range(n);
    } else {
      var k := PositionOf(ws, n);
      var a, b := ws[..k], ws[k + 1..];
      SumAnyOrder(c, challenges, i, a + b, n - 1);
      MoveLast(c, challenges, i, a, n - 1, b);
      assert ws == a + [n - 1] + b;
      assert Range(n) == Range(n - 1) + [n - 1];
      EntriesConcat(c, challenges, i, a + b, [n - 1]);
      EntriesConcat(c, challenges, i, Range(n - 1), [n - 1]);
    }
  }

  lemma PositionOf(ws: seq<nat>, n: nat) returns (k: nat)
    requires NoRepeat(ws, n) && |ws| == n > 0
    ensures k < n && ws[k] == n - 1 && NoRepeat(ws[..k] + ws[k + 1..], n - 1)
  {
    Pigeonhole(ws, n);
    assert n - 1 in ws;
    k :| 0 <= k < n && ws[k] == n - 1;
  }

  /** The evaluations after reading: the main thread's own message plus those read, entry by entry. */
  ghost predicate PartialSums<T(!new)>(c: Config<T>, m: MainThread<T>)
    requires ValidConfig(c)
  {
    |m.evaluations| == c.len && forall i :: 0 <= i < c.len ==>
        m.evaluations[i] == PartialEntry(c, m.challenges, Senders(m.read), i)
  }

  function PartialEntry<T(!new)>(c: Config<T>, challenges: seq<T>, ws: seq<nat>, i: nat): T
    requires forall w: nat :: i < |c.local(w, challenges)|
  {
    c.K.Add(c.local(c.workers, challenges)[i], c.K.Sum(Entries(c, challenges, i, ws)))
  }

  /** Round k of the main thread: the sum of the messages of all threads for the first k challenges. */
  ghost predicate RoundDone<T(!new)>(c: Config<T>, m: MainThread<T>, k: nat)
    requires ValidConfig(c) && k < |m.messages| <= |m.challenges|
  {
    m.messages[k] == SumAll(c.K, LocalMessages(c, m.challenges[..k]), c.len)
  }

  ghost predicate Results<T(!new)>(c: Config<T>, s: State<T>)
    requires ValidConfig(c)
  {
    var m := s.main;
    && |m.messages| == |m.challenges|
    && m.log == AfterRounds(c.log, m.messages) && m.challenges == Challenges(c.oracle, c.log, m.messages)
    && (m.pc.Reading? ==> PartialSums(c, m))
    && (forall k :: 0 <= k < |m.messages| ==> RoundDone(c, m, k))
  }

  lemma InitResults<T(!new)>(c: Config<T>)
    requires ValidConfig(c)
    ensures Results(c, Init(c))
  {
  }

  lemma MainProveResults<T(!new)>(c: Config<T>, s: State<T>)
    requires ValidConfig(c) && Inv(c, s) && Results(c, s) && Enabled(c, s, MainProve)
    ensures Results(c, Apply(c, s, MainProve))
  {
    var t := Apply(c, s, MainProve);
    hide PacketInv, ChallengeInv, WorkerInv;
    forall i: nat | i < c.len
        ensures t.main.evaluations[i] == PartialEntry(c, t.main.challenges, Senders(t.main.read), i) {
      assert Entries(c, t.main.challenges, i, Senders(t.main.read)) == [];
      AddZero(c.K, c.local(c.workers, t.main.challenges)[i]);
    }
    forall k | 0 <= k < |t.main.messages| ensures RoundDone(c, t.main, k) { assert RoundDone(c, s.main, k); }
  }

  lemma MainReadResults<T(!new)>(c: Config<T>, s: State<T>)
    requires ValidConfig(c) && Inv(c, s) && Results(c, s) && Enabled(c, s, MainRead)
    ensures Results(c, Apply(c, s, MainRead))
  {
    var t, g := Apply(c, s, MainRead), Gathering(s);
    var p := s.messages[s.main.rolling][0];
    var gathered := s.main.read + s.messages[g % 2];
    assert gathered[|s.main.read|] == p;
    assert p.values == c.local(p.sender, s.main.challenges);
    hide PacketInv, ChallengeInv, WorkerInv;
    var before := Senders(s.main.read);
    assert Senders(t.main.read) == before + [p.sender];
    forall i: nat | i < c.len
        ensures t.main.evaluations[i] == PartialEntry(c, t.main.challenges, Senders(t.main.read), i) {
      var e := Entries(c, s.main.challenges, i, before);
      assert Entries(c, s.main.challenges, i, before + [p.sender]) == e + [p.values[i]];
      SumSnoc(c.K, e, p.values[i]);
      AddAssoc(c.K, c.local(c.workers, s.main.challenges)[i], c.K.Sum(e), p.values[i]);
    }
    forall k | 0 <= k < |t.main.messages| ensures RoundDone(c, t.main, k) { assert RoundDone(c, s.main, k); }
  }

  /** The entries of all threads, the main thread last. */
  lemma AllEntries<T(!new)>(c: Config<T>, challenges: seq<T>, ws: seq<nat>, i: nat)
    requires ValidConfig(c) && NoRepeat(ws, c.workers) && |ws| == c.workers && i < c.len
    ensures SumAll(c.K, LocalMessages(c, challenges), c.len)[i] == PartialEntry(c, challenges, ws, i)
  {
    hide SumAll, Field<T>.Sum;
    var all, own := LocalMessages(c, challenges), c.local(c.workers, challenges)[i];
    var e := Entries(c, challenges, i, Range(c.workers));
    SumAllEntry(c.K, all, c.len, i);
    SumAnyOrder(c, challenges, i, ws, c.workers);
    assert Column(all, i) == e + [own];
    SumSnoc(c.K, e, own);
    AddComm(c.K, c.K.Sum(e), own);
  }

  /** When all messages are read, the evaluations are the sum over all threads. */
  lemma AllSummed<T(!new)>(c: Config<T>, s: State<T>)
    requires ValidConfig(c) && Inv(c, s) && Results(c, s) && s.main.pc == Reading(c.workers)
    ensures s.main.evaluations == SumAll(c.K, LocalMessages(c, s.main.challenges), c.len)
  {
    AllGathered(c, s);
    hide Inv, PacketInv, ChallengeInv, WorkerInv, SumAll, PartialEntry, LocalMessages;
    assert PartialSums(c, s.main);
    var all := SumAll(c.K, LocalMessages(c, s.main.challenges), c.len);
    forall i: nat | i < c.len ensures s.main.evaluations[i] == all[i] {
      AllEntries(c, s.main.challenges, Senders(s.main.read), i);
    }
  }

  lemma MainSampleResults<T(!new)>(c: Config<T>, s: State<T>)
    requires ValidConfig(c) && Inv(c, s) && Results(c, s) && Enabled(c, s, MainSample)
    ensures Results(c, Apply(c, s, MainSample))
  {
    var t := Apply(c, s, MainSample);
    AllSummed(c, s);
    hide PacketInv, ChallengeInv, WorkerInv, SumAll, Inv;
    AfterRoundsSnoc(c.log, s.main.messages, s.main.evaluations);
    ChallengesSnoc(c.oracle, c.log, s.main.messages, s.main.evaluations);
    var n := |s.main.messages|;
    forall k: nat | k <= n ensures RoundDone(c, t.main, k) {
      assert t.main.challenges[..k] == s.main.challenges[..k];
      if k < n { assert RoundDone(c, s.main, k); } else { assert s.main.challenges[..n] == s.main.challenges; }
    }
  }

  /** Every step of every thread keeps the results. */
  lemma StepResults<T(!new)>(c: Config<T>, s: State<T>, a: Action)
    requires ValidConfig(c) && Inv(c, s) && Results(c, s) && Enabled(c, s, a)
    ensures Results(c, Apply(c, s, a))
  {
    hide PacketInv, ChallengeInv, WorkerInv, SumAll;
    match a
    case MainProve => MainProveResults(c, s);
    case MainRead => MainReadResults(c, s);
    case MainSample => MainSampleResults(c, s);
    case WorkerSend(w) => assert Apply(c, s, a).main == s.main;
    case WorkerReceive(w) => assert Apply(c, s, a).main == s.main;
    case WorkerCommit(w) => assert Apply(c, s, a).main == s.main;
    case MainSendChallenge => OtherMainStep(c, s, a);
    case MainCommit => OtherMainStep(c, s, a);
  }

  lemma OtherMainStep<T(!new)>(c: Config<T>, s: State<T>, a: Action)
    requires ValidConfig(c) && Inv(c, s) && Results(c, s) && Enabled(c, s, a) && (a.MainSendChallenge? || a.MainCommit?)
    ensures Results(c, Apply(c, s, a))
  {
    hide PacketInv, ChallengeInv, WorkerInv, SumAll;
    var t := Apply(c, s, a);
    forall k | 0 <= k < |t.main.messages| ensures RoundDone(c, t.main, k) { assert RoundDone(c, s.main, k); }
  }

  // ---------- whole runs ----------

  /** A run: any interleaving of enabled steps. */
  ghost predicate Run<T(!new)>(c: Config<T>, s: State<T>, actions: seq<Action>, t: State<T>)
    decreases |actions|
  {
    if actions == [] then s == t
    else Shape(c, s) && Enabled(c, s, actions[0]) && Run(c, Apply(c, s, actions[0]), actions[1..], t)
  }

  lemma {:induction false} RunKeeps<T(!new)>(c: Config<T>, s: State<T>, actions: seq<Action>, t: State<T>)
    requires ValidConfig(c) && Inv(c, s) && Results(c, s) && Run(c, s, actions, t)
    ensures Inv(c, t) && Results(c, t) && Measure(c, t) == Measure(c, s) - |actions|
    decreases |actions|
  {
    hide Inv, Results, Apply, Measure, Enabled, Shape;
    if actions != [] {
      InvShape(c, s);
      StepInv(c, s, actions[0]);
      StepResults(c, s, actions[0]);
      StepMeasure(c, s, actions[0]);
      RunKeeps(c, Apply(c, s, actions[0]), actions[1..], t);
    }
  }

  lemma InvShape<T>(c: Config<T>, s: State<T>)
    requires Inv(c, s)
    ensures Shape(c, s)
  {
  }

  lemma {:induction false} InitSteps<T>(c: Config<T>, workers: seq<Worker<T>>)
    requires forall w :: 0 <= w < |workers| ==> workers[w] == Worker(0, Send, 0, [])
    ensures AllWorkerSteps(c, workers) == |workers| * (3 * c.rounds)
  {
    if workers != [] {
      InitSteps(c, workers[1..]);
      assert |workers| * (3 * c.rounds) == 3 * c.rounds + (|workers| - 1) * (3 * c.rounds);
    }
  }

  lemma InitMeasure<T>(c: Config<T>)
    ensures Measure(c, Init(c)) == c.rounds * (5 * c.workers + 3)
  {
    InitSteps(c, Init(c).workers);
    assert c.workers * (3 * c.rounds) + c.rounds * (2 * c.workers + 3) == c.rounds * (5 * c.workers + 3);
  }

  /** Safety and termination over whole runs.  After any number of steps of any interleaving, the main thread has
      sent, for every finished round, the sum of one message per thread computed from the challenges sampled before;
      its transcript and its challenges are those of one prover sending these messages; every worker has received
      exactly a prefix of the challenges; and a run that cannot go on has the full number of rounds and steps. */
  lemma EveryRun<T(!new)>(c: Config<T>, actions: seq<Action>, t: State<T>)
    requires ValidConfig(c) && Run(c, Init(c), actions, t)
    ensures Shape(c, t) && |t.main.messages| == |t.main.challenges| <= c.rounds
    ensures forall k :: 0 <= k < |t.main.messages| ==>
              t.main.messages[k] == SumAll(c.K, LocalMessages(c, t.main.challenges[..k]), c.len)
    ensures t.main.challenges == Challenges(c.oracle, c.log, t.main.messages)
    ensures t.main.log == AfterRounds(c.log, t.main.messages)
    ensures forall w :: 0 <= w < c.workers ==> t.workers[w].challenges <= t.main.challenges
    ensures |actions| <= c.rounds * (5 * c.workers + 3)
    ensures (forall a :: !Enabled(c, t, a)) <==> Final(c, t)
    ensures Final(c, t) ==> |actions| == c.rounds * (5 * c.workers + 3) && |t.main.messages| == c.rounds
  {
    InitInv(c);
    InitResults(c);
    InitMeasure(c);
    RunKeeps(c, Init(c), actions, t);
    hide PacketInv, ChallengeInv, SumAll, Measure, Run;
    forall k | 0 <= k < |t.main.messages|
        ensures t.main.messages[k] == SumAll(c.K, LocalMessages(c, t.main.challenges[..k]), c.len) {
      assert RoundDone(c, t.main, k);
    }
    forall w | 0 <= w < c.workers ensures t.workers[w].challenges <= t.main.challenges { assert WorkerInv(c, t, w); }
    MeasureNatural(c, t);
    if Final(c, t) {
      FinalMeasure(c, t);
      forall a ensures !Enabled(c, t, a) { FinalStuck(c, t, a); }
    } else {
      var a := SomeStepEnabled(c, t);
    }
  }

  lemma FinalStuck<T>(c: Config<T>, s: State<T>, a: Action)
    requires Inv(c, s) && Final(c, s)
    ensures !Enabled(c, s, a)
  {
    hide PacketInv, ChallengeInv;
    forall w | 0 <= w < c.workers ensures s.workers[w].pc.Send? { assert WorkerInv(c, s, w); }
  }

  lemma {:induction false} WorkerStepsNatural<T>(c: Config<T>, workers: seq<Worker<T>>)
    requires forall w :: 0 <= w < |workers| ==> WorkerSteps(c, workers[w]) >= 0
    ensures AllWorkerSteps(c, workers) >= 0
  {
    if workers != [] { WorkerStepsNatural(c, workers[1..]); }
  }

  lemma MeasureNatural<T>(c: Config<T>, s: State<T>)
    requires Inv(c, s)
    ensures Measure(c, s) >= 0
  {
    hide PacketInv, ChallengeInv;
    forall w | 0 <= w < c.workers ensures WorkerSteps(c, s.workers[w]) >= 0 { assert WorkerInv(c, s, w); }
    WorkerStepsNatural(c, s.workers);
    MainStepsNatural(c, s.main);
  }

  lemma MainStepsNatural<T>(c: Config<T>, m: MainThread<T>)
    requires m.round <= c.rounds && (!m.pc.Proving? ==> m.round < c.rounds && m.pc.count <= c.workers)
    ensures MainSteps(c, m) >= 0
  {
    MulOrder(if m.pc.Proving? then 0 else 1, c.rounds - m.round, 2 * c.workers + 3);
  }
}

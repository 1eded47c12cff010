/** The first phase as a concurrent protocol: workers and the main thread exchange messages and challenges over
    two-slot bounded channels, and every thread flips its slot after each round. */
module RollingChannels {
  import opened Fields
  import opened Sums
  import opened HypercubeSums
  import opened SplitTables
  import opened Transcripts

  /** Worker w computes local(w, challenges received so far); the main thread is number `workers`. */
  datatype Config<!T(==)> = Config(K: Field<T>, workers: nat, rounds: nat, len: nat, local: (nat, seq<T>) -> seq<T>,
                                   oracle: seq<Entry<T>> -> T, log: seq<Entry<T>>)
  {
    /** Both kinds of channel are created with one place per thread. */
    function Capacity(): nat { workers + 1 }
  }

  ghost predicate ValidConfig<T(!new)>(c: Config<T>) {
    Lawful(c.K) && forall w: nat, cs: seq<T> {:trigger c.local(w, cs)} :: |c.local(w, cs)| == c.len
  }

  /** The sender and the round label a packet for the proof; the receiver uses the values alone. */
  datatype Packet<T> = Packet(sender: nat, round: nat, values: seq<T>)

  datatype WorkerPc = Send | Receive | Commit

  datatype Worker<T> = Worker(round: nat, pc: WorkerPc, rolling: nat, challenges: seq<T>)

  datatype MainPc = Proving | Reading(count: nat) | Sending(count: nat)

  datatype MainThread<T> = MainThread(round: nat, pc: MainPc, rolling: nat, challenges: seq<T>, evaluations: seq<T>,
                                      read: seq<Packet<T>>, messages: seq<seq<T>>, log: seq<Entry<T>>)

  /** `takers` lists the workers that have taken the latest challenge. */
  datatype State<T> = State(workers: seq<Worker<T>>, main: MainThread<T>, messages: seq<seq<Packet<T>>>,
                            challenges: seq<seq<T>>, takers: seq<nat>)

  function Init<T>(c: Config<T>): State<T> {
    State(seq(c.workers, _ => Worker(0, Send, 0, [])), MainThread(0, Proving, 0, [], [], [], [], c.log), [[], []],
          [[], []], [])
  }

  datatype Action = WorkerSend(w: nat) | WorkerReceive(w: nat) | WorkerCommit(w: nat)
                  | MainProve | MainRead | MainSample | MainSendChallenge | MainCommit

  ghost predicate Shape<T>(c: Config<T>, s: State<T>) {
    && |s.workers| == c.workers && |s.messages| == 2 && |s.challenges| == 2 && s.main.rolling < 2
    && forall w :: 0 <= w < c.workers ==> s.workers[w].rolling < 2
  }

  /** A thread can take its next step: a send waits for a free place, a receive waits for an entry. */
  ghost predicate Enabled<T>(c: Config<T>, s: State<T>, a: Action)
    requires Shape(c, s)
  {
    match a
    case WorkerSend(w) =>
      w < c.workers && s.workers[w].pc.Send? && s.workers[w].round < c.rounds &&
          |s.messages[s.workers[w].rolling]| < c.Capacity()
    case WorkerReceive(w) => w < c.workers && s.workers[w].pc.Receive? && |s.challenges[s.workers[w].rolling]| > 0
    case WorkerCommit(w) => w < c.workers && s.workers[w].pc.Commit?
    case MainProve => s.main.pc.Proving? && s.main.round < c.rounds
    case MainRead => s.main.pc.Reading? && s.main.pc.count < c.workers && |s.messages[s.main.rolling]| > 0
    case MainSample => s.main.pc == Reading(c.workers)
    case MainSendChallenge =>
      s.main.pc.Sending? && s.main.pc.count < c.workers && |s.challenges[s.main.rolling]| < c.Capacity() &&
          s.main.challenges != []
    case MainCommit => s.main.pc == Sending(c.workers)
  }

  /** `AdditiveVec += other` over the common length. */
  function Accumulate<T>(K: Field<T>, acc: seq<T>, other: seq<T>): (r: seq<T>)
    ensures |r| == |acc|
  {
    seq(|acc|, i requires 0 <= i < |acc| => if i < |other| then K.Add(acc[i], other[i]) else acc[i])
  }

  function Apply<T(!new)>(c: Config<T>, s: State<T>, a: Action): State<T>
    requires Shape(c, s) && Enabled(c, s, a)
  {
    match a
    case WorkerSend(w) =>
      var me := s.workers[w];
      s.(workers := s.workers[w := me.(pc := Receive)],
         messages := s.messages[me.rolling := s.messages[me.rolling] + [Packet(w, me.round,
                                                                               c.local(w, me.challenges))]])
    case WorkerReceive(w) =>
      var me := s.workers[w];
      s.(workers := s.workers[w := me.(pc := Commit, challenges := me.challenges + [s.challenges[me.rolling][0]])],
         challenges := s.challenges[me.rolling := s.challenges[me.rolling][1..]],
         takers := s.takers + [w])
    case WorkerCommit(w) =>
      var me := s.workers[w];
      s.(workers := s.workers[w := me.(pc := Send, round := me.round + 1, rolling := (me.rolling + 1) % 2)])
    case MainProve =>
      var m := s.main;
      s.(main := m.(pc := Reading(0),
                    evaluations := Accumulate(c.K, Zeros(c.K, c.len), c.local(c.workers, m.challenges))))
    case MainRead =>
      var m := s.main;
      var p := s.messages[m.rolling][0];
      s.(main := m.(pc := Reading(m.pc.count + 1), evaluations := Accumulate(c.K, m.evaluations, p.values),
                    read := m.read + [p]),
         messages := s.messages[m.rolling := s.messages[m.rolling][1..]])
    case MainSample =>
      var m := s.main;
      s.(main := m.(pc := Sending(0), challenges := m.challenges + [c.oracle(Absorbed(m.log, m.evaluations))],
                    log := AfterRound(m.log, m.evaluations), messages := m.messages + [m.evaluations], read := []),
         takers := [])
    case MainSendChallenge =>
      var m := s.main;
      s.(main := m.(pc := Sending(m.pc.count + 1)),
         challenges := s.challenges[m.rolling := s.challenges[m.rolling] + [m.challenges[|m.challenges| - 1]]])
    case MainCommit =>
      var m := s.main;
      s.(main := m.(pc := Proving, round := m.round + 1, rolling := (m.rolling + 1) % 2))
  }

  // ---------- the invariant ----------

  /** The round whose messages are being gathered; the challenge handed out is that of the round before. */
  function Gathering<T>(s: State<T>): nat {
    if s.main.pc.Sending? then s.main.round + 1 else s.main.round
  }

  ghost predicate NoRepeat(ws: seq<nat>, n: nat) {
    (forall i :: 0 <= i < |ws| ==> ws[i] < n) && (forall i, j :: 0 <= i < j < |ws| ==> ws[i] != ws[j])
  }

  function Senders<T>(ps: seq<Packet<T>>): (r: seq<nat>)
    ensures |r| == |ps| && forall i :: 0 <= i < |r| ==> r[i] == ps[i].sender
  {
    seq(|ps|, i requires 0 <= i < |ps| => ps[i].sender)
  }

  ghost predicate MainInv<T>(c: Config<T>, s: State<T>) {
    var m := s.main;
    && m.rolling == m.round % 2 && Gathering(s) <= c.rounds && (m.pc.Reading? ==> m.round < c.rounds)
    && |m.challenges| == Gathering(s)
    && (m.pc.Reading? ==> m.pc.count == |m.read| <= c.workers)
    && (!m.pc.Reading? ==> m.read == [])
    && (m.pc.Sending? ==> m.pc.count <= c.workers)
  }

  /** No worker is more than one step of the protocol away from the gathering round. */
  ghost predicate WorkerInv<T>(c: Config<T>, s: State<T>, w: nat)
    requires w < |s.workers|
  {
    var me, g := s.workers[w], Gathering(s);
    && me.rolling == me.round % 2
    && ((me.round == g && !me.pc.Commit? && (g == c.rounds ==> me.pc.Send?)) || (me.round + 1 == g && !me.pc.Send?))
    && (if me.pc.Commit? || me.round == g then me.challenges == s.main.challenges
        else s.main.challenges != [] && me.challenges == s.main.challenges[..|s.main.challenges| - 1])
  }

  predicate HasSent<T>(me: Worker<T>, g: nat) { me.round == g && me.pc.Receive? }

  predicate Awaits<T>(me: Worker<T>, g: nat) { me.round + 1 == g && me.pc.Receive? }

  ghost predicate AllLatest<T>(queue: seq<T>, challenges: seq<T>) {
    forall i :: 0 <= i < |queue| ==> challenges != [] && queue[i] == challenges[|challenges| - 1]
  }

  /** Everything sent in the gathering round, by each worker at most once, and nothing else. */
  ghost predicate PacketInv<T>(c: Config<T>, s: State<T>)
    requires Shape(c, s)
  {
    var g := Gathering(s);
    var gathered := s.main.read + s.messages[g % 2];
    && s.messages[(g + 1) % 2] == []
    && NoRepeat(Senders(gathered), c.workers)
    && (forall w :: 0 <= w < c.workers ==> (w in Senders(gathered) <==> HasSent(s.workers[w], g)))
    && (forall i :: 0 <= i < |gathered| ==>
          gathered[i].round == g && gathered[i].values == c.local(gathered[i].sender, s.main.challenges))
  }

  /** The challenges in the channel and those already taken are exactly those sent, all of them the latest. */
  ghost predicate ChallengeInv<T>(c: Config<T>, s: State<T>)
    requires Shape(c, s)
  {
    var g := Gathering(s);
    && s.challenges[g % 2] == []
    && NoRepeat(s.takers, c.workers)
    && (g == 0 ==> s.challenges[1] == [] && s.takers == [])
    && (g > 0 ==>
          && |s.challenges[(g + 1) % 2]| + |s.takers| == (if s.main.pc.Sending? then s.main.pc.count else c.workers)
          && (forall w :: 0 <= w < c.workers ==> (w in s.takers <==> !Awaits(s.workers[w], g)))
          && AllLatest(s.challenges[(g + 1) % 2], s.main.challenges))
  }

  ghost predicate Inv<T>(c: Config<T>, s: State<T>) {
    && Shape(c, s) && MainInv(c, s) && PacketInv(c, s) && ChallengeInv(c, s)
    && forall w :: 0 <= w < c.workers ==> WorkerInv(c, s, w)
  }

  // ---------- counting ----------

  ghost predicate Covers(ws: seq<nat>, n: nat) {
    forall w :: 0 <= w < n ==> w in ws
  }

  /** n different numbers below n are all of them. */
  lemma {:induction false} Pigeonhole(ws: seq<nat>, n: nat)
    requires NoRepeat(ws, n)
    ensures |ws| <= n && (|ws| == n <==> Covers(ws, n))
  {
    if n > 0 {
      if n - 1 in ws {
        var i :| 0 <= i < |ws| && ws[i] == n - 1;
        var rest := ws[..i] + ws[i + 1..];
        Pigeonhole(rest, n - 1);
        forall w | 0 <= w < n - 1 ensures w in ws <==> w in rest { Without(ws, i, w); }
      } else {
        Pigeonhole(ws, n - 1);
      }
    }
  }

  lemma Without(ws: seq<nat>, i: nat, w: nat)
    requires i < |ws|
    ensures w in ws <==> w in ws[..i] + ws[i + 1..] || w == ws[i]
  {
    assert ws == ws[..i] + [ws[i]] + ws[i + 1..];
  }

  lemma NoRepeatSnoc(ws: seq<nat>, n: nat, w: nat)
    requires NoRepeat(ws, n) && w < n && w !in ws
    ensures NoRepeat(ws + [w], n)
  {
  }

  // ---------- every step keeps the invariant ----------

  lemma InitInv<T>(c: Config<T>)
    ensures Inv(c, Init(c))
  {
    var s := Init(c);
    assert s.main.read + s.messages[0] == [];
    assert Senders(s.main.read + s.messages[0]) == [];
    forall w | 0 <= w < c.workers ensures WorkerInv(c, s, w) {}
  }

  lemma WorkersKeep<T>(c: Config<T>, s: State<T>, t: State<T>, w: nat)
    requires Inv(c, s) && t.main == s.main && w < c.workers && |t.workers| == c.workers
    requires forall v :: 0 <= v < c.workers && v != w ==> t.workers[v] == s.workers[v]
    requires WorkerInv(c, t, w)
    ensures forall v :: 0 <= v < c.workers ==> WorkerInv(c, t, v)
  {
    hide PacketInv, ChallengeInv;
    forall v | 0 <= v < c.workers ensures WorkerInv(c, t, v) { assert WorkerInv(c, s, v); }
  }

  /** A worker that can send is in the gathering round, with all challenges. */
  lemma SendsInGathering<T>(c: Config<T>, s: State<T>, w: nat)
    requires Inv(c, s) && Enabled(c, s, WorkerSend(w))
    ensures s.workers[w].round == Gathering(s) && s.workers[w].rolling == Gathering(s) % 2
    ensures s.workers[w].challenges == s.main.challenges
  {
    hide PacketInv, ChallengeInv;
    assert WorkerInv(c, s, w);
  }

  lemma WorkerSendPackets<T(!new)>(c: Config<T>, s: State<T>, w: nat)
    requires Inv(c, s) && Enabled(c, s, WorkerSend(w))
    ensures PacketInv(c, Apply(c, s, WorkerSend(w)))
  {
    SendsInGathering(c, s, w);
    hide ChallengeInv, MainInv, WorkerInv;
    var t, g, me := Apply(c, s, WorkerSend(w)), Gathering(s), s.workers[w];
    var before, after := s.main.read + s.messages[g % 2], t.main.read + t.messages[g % 2];
    assert after == before + [Packet(w, me.round, c.local(w, me.challenges))];
    assert Senders(after) == Senders(before) + [w];
    assert !HasSent(me, g);
    NoRepeatSnoc(Senders(before), c.workers, w);
    forall v | 0 <= v < c.workers ensures v in Senders(after) <==> HasSent(t.workers[v], g) {
      assert v in Senders(before) <==> HasSent(s.workers[v], g);
    }
  }

  lemma WorkerSendInv<T(!new)>(c: Config<T>, s: State<T>, w: nat)
    requires Inv(c, s) && Enabled(c, s, WorkerSend(w))
    ensures Inv(c, Apply(c, s, WorkerSend(w)))
  {
    WorkerSendPackets(c, s, w);
    hide PacketInv;
    assert WorkerInv(c, s, w);
    WorkersKeep(c, s, Apply(c, s, WorkerSend(w)), w);
  }

  lemma WorkerReceivePackets<T(!new)>(c: Config<T>, s: State<T>, w: nat)
    requires Inv(c, s) && Enabled(c, s, WorkerReceive(w))
    ensures PacketInv(c, Apply(c, s, WorkerReceive(w)))
  {
    assert WorkerInv(c, s, w);
    ReceivesLatest(c, s, w);
    hide ChallengeInv;
  }

  /** A worker that takes a challenge takes the one of the round it has just sent its message in. */
  lemma ReceivesLatest<T(!new)>(c: Config<T>, s: State<T>, w: nat)
    requires Inv(c, s) && Enabled(c, s, WorkerReceive(w))
    ensures s.workers[w].round + 1 == Gathering(s) == |s.main.challenges|
    ensures s.challenges[s.workers[w].rolling][0] == s.main.challenges[s.workers[w].round]
    ensures s.workers[w].challenges == s.main.challenges[..s.workers[w].round]
  {
    hide PacketInv;
    assert WorkerInv(c, s, w);
  }

  lemma WorkerReceiveInv<T(!new)>(c: Config<T>, s: State<T>, w: nat)
    requires Inv(c, s) && Enabled(c, s, WorkerReceive(w))
    ensures Inv(c, Apply(c, s, WorkerReceive(w)))
  {
    WorkerReceivePackets(c, s, w);
    ReceivesLatest(c, s, w);
    hide PacketInv;
    assert WorkerInv(c, s, w);
    var n := |s.main.challenges|;
    assert s.main.challenges == s.main.challenges[..n - 1] + [s.main.challenges[n - 1]];
    NoRepeatSnoc(s.takers, c.workers, w);
    WorkersKeep(c, s, Apply(c, s, WorkerReceive(w)), w);
  }

  lemma WorkerCommitInv<T(!new)>(c: Config<T>, s: State<T>, w: nat)
    requires Inv(c, s) && Enabled(c, s, WorkerCommit(w))
    ensures Inv(c, Apply(c, s, WorkerCommit(w)))
  {
    assert WorkerInv(c, s, w);
    var t := Apply(c, s, WorkerCommit(w));
    assert PacketInv(c, t) by { hide ChallengeInv; }
    WorkersKeep(c, s, t, w);
    assert ChallengeInv(c, t) by { hide PacketInv; }
  }

  lemma MainProveInv<T(!new)>(c: Config<T>, s: State<T>)
    requires Inv(c, s) && Enabled(c, s, MainProve)
    ensures Inv(c, Apply(c, s, MainProve))
  {
    var t := Apply(c, s, MainProve);
    forall v | 0 <= v < c.workers ensures WorkerInv(c, t, v) { assert WorkerInv(c, s, v); }
  }

  lemma MainReadInv<T(!new)>(c: Config<T>, s: State<T>)
    requires Inv(c, s) && Enabled(c, s, MainRead)
    ensures Inv(c, Apply(c, s, MainRead))
  {
    var t, g := Apply(c, s, MainRead), Gathering(s);
    assert t.main.read + t.messages[g % 2] == s.main.read + s.messages[g % 2];
    Pigeonhole(Senders(s.main.read + s.messages[g % 2]), c.workers);
    forall v | 0 <= v < c.workers ensures WorkerInv(c, t, v) { assert WorkerInv(c, s, v); }
  }

  /** When the main thread has read as many messages as there are workers, every worker has sent its message of this
      round, and has taken the previous challenge. */
  lemma AllGathered<T>(c: Config<T>, s: State<T>)
    requires Inv(c, s) && s.main.pc == Reading(c.workers)
    ensures s.messages[0] == [] && s.messages[1] == [] && s.challenges[0] == [] && s.challenges[1] == []
    ensures NoRepeat(Senders(s.main.read), c.workers) && |s.main.read| == c.workers
    ensures forall w :: 0 <= w < c.workers ==>
              HasSent(s.workers[w], Gathering(s)) && s.workers[w].challenges == s.main.challenges
  {
    var g := Gathering(s);
    var gathered := s.main.read + s.messages[g % 2];
    Pigeonhole(Senders(gathered), c.workers);
    assert s.messages[g % 2] == [];
    assert gathered == s.main.read;
    forall w | 0 <= w < c.workers
        ensures HasSent(s.workers[w], g) { assert w in Senders(gathered); assert WorkerInv(c, s, w); }
    Pigeonhole(s.takers, c.workers);
    forall w | 0 <= w < c.workers ensures s.workers[w].challenges == s.main.challenges { assert WorkerInv(c, s, w); }
    if g > 0 {
      forall w | 0 <= w < c.workers ensures w in s.takers { assert HasSent(s.workers[w], g); }
      assert Covers(s.takers, c.workers);
    }
  }

  lemma MainSampleInv<T(!new)>(c: Config<T>, s: State<T>)
    requires Inv(c, s) && Enabled(c, s, MainSample)
    ensures Inv(c, Apply(c, s, MainSample))
  {
    var t, g := Apply(c, s, MainSample), Gathering(s);
    AllGathered(c, s);
    hide PacketInv, ChallengeInv;
    assert Gathering(t) == g + 1;
    var n := |s.main.challenges|;
    assert t.main.challenges[..n] == s.main.challenges;
    forall v | 0 <= v < c.workers
        ensures WorkerInv(c, t, v) { assert WorkerInv(c, s, v); assert HasSent(s.workers[v], g); }
    SampledPackets(c, t, g);
    SampledChallenges(c, t, g);
  }

  lemma SampledPackets<T>(c: Config<T>, t: State<T>, g: nat)
    requires Shape(c, t) && Gathering(t) == g + 1 && t.main.read == [] && t.messages[0] == [] && t.messages[1] == []
    requires forall w :: 0 <= w < c.workers ==> HasSent(t.workers[w], g)
    ensures PacketInv(c, t)
  {
    assert t.main.read + t.messages[(g + 1) % 2] == [];
    assert Senders(t.main.read + t.messages[(g + 1) % 2]) == [];
    forall w | 0 <= w < c.workers ensures !HasSent(t.workers[w], g + 1) { assert HasSent(t.workers[w], g); }
  }

  lemma SampledChallenges<T>(c: Config<T>, t: State<T>, g: nat)
    requires Shape(c, t) && Gathering(t) == g + 1 && t.main.pc == Sending(0) && t.challenges[0] == [] &&
               t.challenges[1] == []
    requires t.takers == [] && forall w :: 0 <= w < c.workers ==> HasSent(t.workers[w], g)
    ensures ChallengeInv(c, t)
  {
    forall w | 0 <= w < c.workers ensures Awaits(t.workers[w], g + 1) { assert HasSent(t.workers[w], g); }
  }

  lemma MainSendChallengeInv<T(!new)>(c: Config<T>, s: State<T>)
    requires Inv(c, s) && Enabled(c, s, MainSendChallenge)
    ensures Inv(c, Apply(c, s, MainSendChallenge))
  {
    var t := Apply(c, s, MainSendChallenge);
    forall v | 0 <= v < c.workers ensures WorkerInv(c, t, v) { assert WorkerInv(c, s, v); }
    assert PacketInv(c, t) by { hide ChallengeInv; }
  }

  lemma MainCommitInv<T(!new)>(c: Config<T>, s: State<T>)
    requires Inv(c, s) && Enabled(c, s, MainCommit)
    ensures Inv(c, Apply(c, s, MainCommit))
  {
    var t := Apply(c, s, MainCommit);
    assert Gathering(t) == Gathering(s);
    forall v | 0 <= v < c.workers ensures WorkerInv(c, t, v) { assert WorkerInv(c, s, v); }
  }

  /** Every step of every thread keeps the invariant. */
  lemma StepInv<T(!new)>(c: Config<T>, s: State<T>, a: Action)
    requires Inv(c, s) && Enabled(c, s, a)
    ensures Inv(c, Apply(c, s, a))
  {
    hide *;
    match a
    case WorkerSend(w) => WorkerSendInv(c, s, w);
    case WorkerReceive(w) => WorkerReceiveInv(c, s, w);
    case WorkerCommit(w) => WorkerCommitInv(c, s, w);
    case MainProve => MainProveInv(c, s);
    case MainRead => MainReadInv(c, s);
    case MainSample => MainSampleInv(c, s);
    case MainSendChallenge => MainSendChallengeInv(c, s);
    case MainCommit => MainCommitInv(c, s);
  }

  // ---------- runs ----------

  /** The channels are never full when a thread wants to send. */
  lemma SendsNeverBlock<T>(c: Config<T>, s: State<T>)
    requires Inv(c, s)
    ensures forall slot :: 0 <= slot < 2 ==> |s.messages[slot]| < c.Capacity() && |s.challenges[slot]| < c.Capacity()
  {
    var g := Gathering(s);
    Pigeonhole(Senders(s.main.read + s.messages[g % 2]), c.workers);
    forall slot | 0 <= slot < 2 ensures |s.messages[slot]| < c.Capacity() && |s.challenges[slot]| < c.Capacity() {
      assert slot == g % 2 || slot == (g + 1) % 2;
    }
  }

  ghost predicate Final<T>(c: Config<T>, s: State<T>)
    requires Shape(c, s)
  {
    s.main.round == c.rounds && forall w :: 0 <= w < c.workers ==> s.workers[w].round == c.rounds
  }

  /** A worker that is not done with the gathering round can move: it sends, commits, or finds its challenge. */
  lemma WorkerMoves<T>(c: Config<T>, s: State<T>, w: nat) returns (a: Action)
    requires Inv(c, s) && w < c.workers && !HasSent(s.workers[w], Gathering(s)) && s.workers[w].round < c.rounds
    requires !s.main.pc.Sending?
    ensures Enabled(c, s, a)
  {
    assert WorkerInv(c, s, w);
    var g := Gathering(s);
    match s.workers[w].pc
    case Send => SendsNeverBlock(c, s); a := WorkerSend(w);
    case Commit => a := WorkerCommit(w);
    case Receive =>
      assert Awaits(s.workers[w], g);
      Pigeonhole(s.takers, c.workers);
      a := WorkerReceive(w);
  }

  /** No deadlock: in every reachable state that is not final, some thread can move. */
  lemma SomeStepEnabled<T>(c: Config<T>, s: State<T>) returns (a: Action)
    requires Inv(c, s) && !Final(c, s)
    ensures Enabled(c, s, a)
  {
    var g := Gathering(s);
    SendsNeverBlock(c, s);
    match s.main.pc
    case Sending(j) => a := if j < c.workers then MainSendChallenge else MainCommit;
    case Proving =>
      if s.main.round < c.rounds {
        a := MainProve;
      } else {
        var w :| 0 <= w < c.workers && s.workers[w].round != c.rounds;
        assert WorkerInv(c, s, w);
        a := WorkerMoves(c, s, w);
      }
    case Reading(j) =>
      if j == c.workers {
        a := MainSample;
      } else if |s.messages[s.main.rolling]| > 0 {
        a := MainRead;
      } else {
        var gathered := s.main.read + s.messages[g % 2];
        Pigeonhole(Senders(gathered), c.workers);
        var w :| 0 <= w < c.workers && w !in Senders(gathered);
        assert WorkerInv(c, s, w);
        a := WorkerMoves(c, s, w);
      }
  }

  function WorkerSteps<T>(c: Config<T>, me: Worker<T>): int {
    3 * (c.rounds - me.round) - (match me.pc case Send => 0 case Receive => 1 case Commit => 2)
  }

  function AllWorkerSteps<T>(c: Config<T>, workers: seq<Worker<T>>): int {
    if workers == [] then 0 else WorkerSteps(c, workers[0]) + AllWorkerSteps(c, workers[1..])
  }

  function MainSteps<T>(c: Config<T>, m: MainThread<T>): int {
    (c.rounds - m.round) * (2 * c.workers + 3)
    - (match m.pc case Proving => 0 case Reading(j) => 1 + j case Sending(j) => 2 + c.workers + j)
  }

  /** The number of steps that remain. */
  function Measure<T>(c: Config<T>, s: State<T>): int {
    AllWorkerSteps(c, s.workers) + MainSteps(c, s.main)
  }

  lemma {:induction false} WorkerStepped<T>(c: Config<T>, workers: seq<Worker<T>>, w: nat, me: Worker<T>)
    requires w < |workers|
    ensures AllWorkerSteps(c, workers[w := me])
              == AllWorkerSteps(c, workers) - WorkerSteps(c, workers[w]) + WorkerSteps(c, me)
  {
    if w == 0 {
      assert workers[0 := me][1..] == workers[1..];
    } else {
      assert workers[w := me][1..] == workers[1..][w - 1 := me];
      WorkerStepped(c, workers[1..], w - 1, me);
    }
  }

  /** Every step of every thread takes exactly one off the number of steps that remain. */
  lemma StepMeasure<T(!new)>(c: Config<T>, s: State<T>, a: Action)
    requires Shape(c, s) && Enabled(c, s, a)
    ensures Measure(c, Apply(c, s, a)) == Measure(c, s) - 1
  {
    var t := Apply(c, s, a);
    match a
    case WorkerSend(w) => WorkerStepped(c, s.workers, w, t.workers[w]);
    case WorkerReceive(w) => WorkerStepped(c, s.workers, w, t.workers[w]);
    case WorkerCommit(w) => WorkerStepped(c, s.workers, w, t.workers[w]);
    case MainCommit =>
      var k, n := c.rounds - s.main.round, 2 * c.workers + 3;
      assert (k - 1) * n == k * n - n;
    case MainProve =>
    case MainRead =>
    case MainSample =>
    case MainSendChallenge =>
  }

  lemma {:induction false} FinalWorkerSteps<T>(c: Config<T>, workers: seq<Worker<T>>)
    requires forall w :: 0 <= w < |workers| ==> workers[w].round == c.rounds && workers[w].pc.Send?
    ensures AllWorkerSteps(c, workers) == 0
  {
    if workers != [] { FinalWorkerSteps(c, workers[1..]); }
  }

  /** No step remains in a final state. */
  lemma FinalMeasure<T>(c: Config<T>, s: State<T>)
    requires Inv(c, s) && Final(c, s)
    ensures Measure(c, s) == 0
  {
    hide PacketInv, ChallengeInv;
    forall w | 0 <= w < c.workers ensures s.workers[w].pc.Send? { assert WorkerInv(c, s, w); }
    FinalWorkerSteps(c, s.workers);
    assert s.main.pc.Proving? && c.rounds - s.main.round == 0;
  }
}

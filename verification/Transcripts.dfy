/** The main transcript: a log of everything appended to it.  A challenge is an arbitrary function of the log. */
module Transcripts {

  datatype Entry<T> = Number(n: nat) | Element(e: T) | InternalRound | Squeezed

  function Elements<T>(es: seq<T>): (r: seq<Entry<T>>)
    ensures |r| == |es| && forall i :: 0 <= i < |r| ==> r[i] == Element(es[i])
  {
    seq(|es|, i requires 0 <= i < |es| => Element(es[i]))
  }

  function Opening<T>(numVars: nat, maxDegree: nat): seq<Entry<T>> {
    [Number(numVars), Number(maxDegree)]
  }

  /** What the challenge of a round depends on. */
  function Absorbed<T>(log: seq<Entry<T>>, message: seq<T>): seq<Entry<T>> {
    log + Elements(message) + [InternalRound]
  }

  function AfterRound<T>(log: seq<Entry<T>>, message: seq<T>): seq<Entry<T>> {
    Absorbed(log, message) + [Squeezed]
  }

  function AfterRounds<T>(log: seq<Entry<T>>, messages: seq<seq<T>>): seq<Entry<T>>
    decreases |messages|
  {
    if messages == [] then log else AfterRounds(AfterRound(log, messages[0]), messages[1..])
  }

  lemma {:induction false} AfterRoundsSnoc<T>(log: seq<Entry<T>>, messages: seq<seq<T>>, message: seq<T>)
    ensures AfterRounds(log, messages + [message]) == AfterRound(AfterRounds(log, messages), message)
    decreases |messages|
  {
    if messages == [] {
      assert [message][1..] == [];
    } else {
      assert (messages + [message])[1..] == messages[1..] + [message];
      AfterRoundsSnoc(AfterRound(log, messages[0]), messages[1..], message);
    }
  }

  /** The challenges drawn in consecutive rounds. */
  function Challenges<T>(oracle: seq<Entry<T>> -> T, log: seq<Entry<T>>, messages: seq<seq<T>>): (cs: seq<T>)
    ensures |cs| == |messages|
    decreases |messages|
  {
    if messages == [] then []
    else [oracle(Absorbed(log, messages[0]))] + Challenges(oracle, AfterRound(log, messages[0]), messages[1..])
  }

  lemma {:induction false} ChallengesSnoc<T>(oracle: seq<Entry<T>> -> T, log: seq<Entry<T>>, messages: seq<seq<T>>,
                                             message: seq<T>)
    ensures Challenges(oracle, log, messages + [message])
         == Challenges(oracle, log, messages) + [oracle(Absorbed(AfterRounds(log, messages), message))]
    decreases |messages|
  {
    if messages == [] {
      assert [message][1..] == [];
      assert Challenges(oracle, AfterRound(log, message), []) == [];
    } else {
      assert (messages + [message])[1..] == messages[1..] + [message];
      ChallengesSnoc(oracle, AfterRound(log, messages[0]), messages[1..], message);
    }
  }

  /** A challenge depends only on the messages sent before it. */
  lemma {:induction false} ChallengesPrefix<T>(oracle: seq<Entry<T>> -> T, log: seq<Entry<T>>, messages: seq<seq<T>>,
                                               k: nat)
    requires k <= |messages|
    ensures Challenges(oracle, log, messages)[..k] == Challenges(oracle, log, messages[..k])
    decreases |messages|
  {
    if k > 0 {
      assert messages[..k][1..] == messages[1..][..k - 1];
      ChallengesPrefix(oracle, AfterRound(log, messages[0]), messages[1..], k - 1);
    }
  }

  // ---------- a challenge depends on everything before it ----------

  /** The log from which the last of these challenges is drawn. */
  function History<T>(log: seq<Entry<T>>, numVars: nat, maxDegree: nat, messages: seq<seq<T>>): seq<Entry<T>>
    requires messages != []
  {
    Absorbed(AfterRounds(log + Opening(numVars, maxDegree), messages[..|messages| - 1]), messages[|messages| - 1])
  }

  /** The entries of consecutive rounds up to the last challenge. */
  function Rounds<T>(messages: seq<seq<T>>): seq<Entry<T>>
    requires messages != []
    decreases |messages|
  {
    if |messages| == 1 then Elements(messages[0]) + [InternalRound]
    else Elements(messages[0]) + ([InternalRound, Squeezed] + Rounds(messages[1..]))
  }

  lemma {:induction false} RoundsAbsorbed<T>(log: seq<Entry<T>>, messages: seq<seq<T>>)
    requires messages != []
    ensures Absorbed(AfterRounds(log, messages[..|messages| - 1]), messages[|messages| - 1]) == log + Rounds(messages)
    decreases |messages|
  {
    if |messages| == 1 {
      assert messages[..0] == [];
    } else {
      var rest := messages[1..];
      assert messages[..|messages| - 1][1..] == rest[..|rest| - 1];
      RoundsAbsorbed(AfterRound(log, messages[0]), rest);
      assert AfterRound(log, messages[0]) + Rounds(rest) == log + Rounds(messages);
    }
  }

  /** The entries of a message end at the first label. */
  lemma MessageEnds<T>(m: seq<T>, n: seq<T>, s: seq<Entry<T>>, t: seq<Entry<T>>)
    requires s != [] && t != [] && s[0] == InternalRound && t[0] == InternalRound
    requires Elements(m) + s == Elements(n) + t
    ensures m == n && s == t
  {
    var u := Elements(m) + s;
    assert forall i :: 0 <= i < |m| ==> u[i] == Element(m[i]);
    assert forall i :: 0 <= i < |n| ==> u[i] == Element(n[i]);
    assert u[|m|] == InternalRound && u[|n|] == InternalRound;
    if |m| != |n| {
      assert false;
    }
    forall i | 0 <= i < |m| ensures m[i] == n[i] { assert u[i] == Element(m[i]) && u[i] == Element(n[i]); }
    assert u[|m|..] == s && u[|n|..] == t;
  }

  /** What follows the entries of the first message. */
  function AfterMessage<T>(messages: seq<seq<T>>): (r: seq<Entry<T>>)
    requires messages != []
    ensures r != [] && r[0] == InternalRound && (|r| == 1 <==> |messages| == 1)
    ensures |messages| > 1 ==> r[2..] == Rounds(messages[1..])
    ensures Rounds(messages) == Elements(messages[0]) + r
  {
    if |messages| == 1 then [InternalRound] else [InternalRound, Squeezed] + Rounds(messages[1..])
  }

  lemma {:induction false} RoundsInjective<T>(ms: seq<seq<T>>, ns: seq<seq<T>>)
    requires ms != [] && ns != [] && Rounds(ms) == Rounds(ns)
    ensures ms == ns
    decreases |ms|
  {
    hide Rounds, AfterMessage, Elements;
    MessageEnds(ms[0], ns[0], AfterMessage(ms), AfterMessage(ns));
    if |ms| > 1 {
      RoundsInjective(ms[1..], ns[1..]);
      assert ms == [ms[0]] + ms[1..] && ns == [ns[0]] + ns[1..];
    }
  }

  /** What a challenge is drawn from determines the opening and every message before it, that of its own round
      included: no two different transcripts share it. */
  lemma HistoryBinds<T>(log: seq<Entry<T>>, n: nat, d: nat, ms: seq<seq<T>>, n': nat, d': nat, ns: seq<seq<T>>)
    requires ms != [] && ns != [] && History(log, n, d, ms) == History(log, n', d', ns)
    ensures n == n' && d == d' && ms == ns
  {
    hide Absorbed, AfterRounds, Rounds;
    var start, start' := log + Opening<T>(n, d), log + Opening<T>(n', d');
    RoundsAbsorbed(start, ms);
    RoundsAbsorbed(start', ns);
    var u := start + Rounds(ms);
    assert u == start' + Rounds(ns);
    assert u[|log|] == Number(n) && u[|log|] == Number(n');
    assert u[|log| + 1] == Number(d) && u[|log| + 1] == Number(d');
    assert u[|start|..] == Rounds(ms) && u[|start'|..] == Rounds(ns);
    RoundsInjective(ms, ns);
  }

  /** Challenge k is the answer of the oracle to the history of round k. */
  lemma ChallengeAt<T>(oracle: seq<Entry<T>> -> T, log: seq<Entry<T>>, n: nat, d: nat, messages: seq<seq<T>>, k: nat)
    requires k < |messages|
    ensures Challenges(oracle, log + Opening(n, d), messages)[k] == oracle(History(log, n, d, messages[..k + 1]))
  {
    hide AfterRounds, Absorbed;
    var start := log + Opening<T>(n, d);
    ChallengesPrefix(oracle, start, messages, k + 1);
    assert messages[..k + 1] == messages[..k] + [messages[k]];
    assert messages[..k + 1][..k] == messages[..k];
    ChallengesSnoc(oracle, start, messages[..k], messages[k]);
  }

  /** The oracle with another answer to one history. */
  ghost function Reprogrammed<T>(oracle: seq<Entry<T>> -> T, history: seq<Entry<T>>, value: T): seq<Entry<T>> -> T {
    (h: seq<Entry<T>>) => if h == history then value else oracle(h)
  }

  /** Any value is possible as the challenge of a round after everything before that challenge is fixed: another answer
      to the history of round k changes challenge k and none before it. */
  lemma ChallengeIsFree<T>(oracle: seq<Entry<T>> -> T, log: seq<Entry<T>>, n: nat, d: nat,
                           messages: seq<seq<T>>, k: nat, value: T)
    requires k < |messages|
    ensures var other := Reprogrammed(oracle, History(log, n, d, messages[..k + 1]), value);
            && Challenges(other, log + Opening(n, d), messages)[k] == value
            && Challenges(other, log + Opening(n, d), messages)[..k]
               == Challenges(oracle, log + Opening(n, d), messages)[..k]
  {
    hide Challenges, History;
    var h := History(log, n, d, messages[..k + 1]);
    var other := Reprogrammed(oracle, h, value);
    ChallengeAt(other, log, n, d, messages, k);
    var cs, os := Challenges(oracle, log + Opening(n, d), messages), Challenges(other, log + Opening(n, d), messages);
    forall j | 0 <= j < k ensures cs[j] == os[j] {
      ChallengeAt(oracle, log, n, d, messages, j);
      ChallengeAt(other, log, n, d, messages, j);
      if History(log, n, d, messages[..j + 1]) == h {
        HistoryBinds(log, n, d, messages[..j + 1], n, d, messages[..k + 1]);
        assert false;
      }
    }
    assert os[..k] == cs[..k];
  }

  /** Two runs of the protocol that differ in the opening or in some message up to round k may receive any two
      challenges in round k, independently of each other. */
  lemma ChallengesIndependent<T>(log: seq<Entry<T>>, n: nat, d: nat, ms: seq<seq<T>>, n': nat, d': nat,
                                 ns: seq<seq<T>>, k: nat, x: T, y: T) returns (oracle: seq<Entry<T>> -> T)
    requires k < |ms| && k < |ns| && (n != n' || d != d' || ms[..k + 1] != ns[..k + 1])
    ensures Challenges(oracle, log + Opening(n, d), ms)[k] == x
    ensures Challenges(oracle, log + Opening(n', d'), ns)[k] == y
  {
    hide History, Challenges;
    var h, h' := History(log, n, d, ms[..k + 1]), History(log, n', d', ns[..k + 1]);
    oracle := Reprogrammed(_ => y, h, x);
    ChallengeAt(oracle, log, n, d, ms, k);
    ChallengeAt(oracle, log, n', d', ns, k);
    if h == h' {
      HistoryBinds(log, n, d, ms[..k + 1], n', d', ns[..k + 1]);
      assert false;
    }
  }

  class Transcript<T(==)> {
    const oracle: seq<Entry<T>> -> T
    var log: seq<Entry<T>>

    constructor (oracle: seq<Entry<T>> -> T)
      ensures this.oracle == oracle && log == []
    {
      this.oracle, log := oracle, [];
    }

    method AppendMessage(n: nat)
      modifies this
      ensures log == old(log) + [Number(n)]
    {
      log := log + [Number(n)];
    }

    method AppendFieldElementExts(es: seq<T>)
      modifies this
      ensures log == old(log) + Elements(es)
    {
      for i := 0 to |es|
        invariant log == old(log) + Elements(es)[..i]
      {
        assert Elements(es)[..i + 1] == Elements(es)[..i] + [Element(es[i])];
        log := log + [Element(es[i])];
      }
      assert Elements(es)[..|es|] == Elements(es);
    }

    method SampleAndAppendChallenge() returns (challenge: T)
      modifies this
      ensures challenge == oracle(old(log) + [InternalRound])
      ensures log == old(log) + [InternalRound] + [Squeezed]
    {
      log := log + [InternalRound];
      challenge := oracle(log);
      log := log + [Squeezed];
    }
  }
}

/** Offline memory checking: every access consumes the record of the previous access to its address and produces a
    new one.  If the records balance, every read returns the last value written; and a trace in which every access
    names its predecessor balances. */
module MemoryArgument {

  /** What the circuit commits to: an address, the value it holds, and the time of the access. */
  datatype Record<A, V> = Record(addr: A, value: V, ts: nat)

  /** One access; a plain read has the same value before and after. */
  datatype Access<A, V> = Access(addr: A, before: V, after: V, prevTs: nat, ts: nat)
  {
    function Read(): Record<A, V> { Record(addr, before, prevTs) }

    function Write(): Record<A, V> { Record(addr, after, ts) }
  }

  function Reads<A, V>(log: seq<Access<A, V>>): (r: seq<Record<A, V>>)
    ensures |r| == |log| && forall i :: 0 <= i < |r| ==> r[i] == log[i].Read()
  {
    seq(|log|, i requires 0 <= i < |log| => log[i].Read())
  }

  function Writes<A, V>(log: seq<Access<A, V>>): (r: seq<Record<A, V>>)
    ensures |r| == |log| && forall i :: 0 <= i < |r| ==> r[i] == log[i].Write()
  {
    seq(|log|, i requires 0 <= i < |log| => log[i].Write())
  }

  ghost predicate Forward<A, V>(log: seq<Access<A, V>>) {
    forall i :: 0 <= i < |log| ==> log[i].prevTs < log[i].ts
  }

  /** The product checked by the verifier: everything written is read again or is final. */
  ghost predicate Balanced<A, V>(inits: seq<Record<A, V>>, log: seq<Access<A, V>>, finals: seq<Record<A, V>>) {
    multiset(inits) + multiset(Writes(log)) == multiset(Reads(log)) + multiset(finals)
  }

  ghost predicate OnePerAddress<A, V>(records: seq<Record<A, V>>) {
    forall i, j :: 0 <= i < j < |records| ==> records[i].addr != records[j].addr
  }

  // ---------- one address: the accesses form a single path ----------

  /** A path from one record to another. */
  ghost predicate Path<A, V>(from: Record<A, V>, p: seq<Access<A, V>>, to: Record<A, V>)
    decreases |p|
  {
    if p == [] then from == to else p[0].Read() == from && Path(p[0].Write(), p[1..], to)
  }

  function Without<X>(s: seq<X>, i: nat): (r: seq<X>)
    requires i < |s|
    ensures |r| == |s| - 1 && multiset(s) == multiset(r) + multiset{s[i]}
  {
    assert s == s[..i] + [s[i]] + s[i + 1..];
    s[..i] + s[i + 1..]
  }

  lemma WithoutRecords<A, V>(log: seq<Access<A, V>>, i: nat)
    requires i < |log|
    ensures multiset(Reads(log)) == multiset(Reads(Without(log, i))) + multiset{log[i].Read()}
    ensures multiset(Writes(log)) == multiset(Writes(Without(log, i))) + multiset{log[i].Write()}
    ensures Forward(log) ==> Forward(Without(log, i))
  {
    assert Reads(Without(log, i)) == Without(Reads(log), i);
    assert Writes(Without(log, i)) == Without(Writes(log), i);
  }

  lemma {:induction false} LatestAccess<A, V>(log: seq<Access<A, V>>) returns (i: nat)
    requires log != []
    ensures i < |log| && forall j :: 0 <= j < |log| ==> log[j].ts <= log[i].ts
  {
    i := 0;
    if |log| > 1 {
      var k := LatestAccess(log[1..]);
      forall j | 1 <= j < |log| ensures log[j].ts <= log[k + 1].ts { assert log[j] == log[1..][j - 1]; }
      if log[0].ts < log[k + 1].ts { i := k + 1; }
    }
  }

  /** Accesses that only feed each other do not exist: time would have to run in a circle. */
  lemma NoCircle<A, V>(log: seq<Access<A, V>>)
    requires Forward(log) && multiset(Writes(log)) == multiset(Reads(log))
    ensures log == []
  {
    hide Reads, Writes;
    if log != [] {
      var i := LatestAccess(log);
      WriteOccurs(log, i);
      var j := ReadAt(log, log[i].Write());
      assert false;
    }
  }

  lemma WriteOccurs<A, V>(log: seq<Access<A, V>>, i: nat)
    requires i < |log|
    ensures log[i].Write() in multiset(Writes(log))
  {
    assert log[i].Write() == Writes(log)[i];
  }

  lemma Cancel<X>(a: multiset<X>, b: multiset<X>, x: X)
    requires a + multiset{x} == b + multiset{x}
    ensures a == b
  {
    assert a == (a + multiset{x}) - multiset{x};
    assert b == (b + multiset{x}) - multiset{x};
  }

  /** A balanced set of accesses between one initial and one final record can be lined up as one path. */
  lemma {:induction false} LineUp<A,
      V>(from: Record<A, V>, log: seq<Access<A, V>>, to: Record<A, V>) returns (p: seq<Access<A, V>>)
    requires Forward(log) && multiset{from} + multiset(Writes(log)) == multiset(Reads(log)) + multiset{to}
    ensures Path(from, p, to) && multiset(p) == multiset(log)
    decreases |log|
  {
    hide Without, Reads, Writes, Forward;
    var w, r := multiset(Writes(log)), multiset(Reads(log));
    assert from in r + multiset{to};
    if from in r {
      var i := ReadAt(log, from);
      var later, e := Without(log, i), log[i];
      WithoutRecords(log, i);
      var w', r' := multiset(Writes(later)), multiset(Reads(later));
      assert (multiset{e.Write()} + w') + multiset{from} == multiset{from} + w;
      assert (r' + multiset{to}) + multiset{from} == r + multiset{to};
      Cancel(multiset{e.Write()} + w', r' + multiset{to}, from);
      var rest := LineUp(e.Write(), later, to);
      p := [e] + rest;
      assert p[1..] == rest;
    } else {
      assert from == to;
      assert w + multiset{from} == multiset{from} + w;
      Cancel(w, r, from);
      NoCircle(log);
      p := [];
    }
  }

  lemma ReadAt<A, V>(log: seq<Access<A, V>>, x: Record<A, V>) returns (i: nat)
    requires x in multiset(Reads(log))
    ensures i < |log| && log[i].Read() == x
  {
    i :| 0 <= i < |log| && Reads(log)[i] == x;
  }

  /** Access k of a path reads what access k - 1 wrote. */
  lemma {:induction false} PathStep<A, V>(from: Record<A, V>, p: seq<Access<A, V>>, to: Record<A, V>, k: nat)
    requires Path(from, p, to) && k <= |p|
    ensures k < |p| ==> p[k].Read() == if k == 0 then from else p[k - 1].Write()
    ensures k == |p| ==> to == if k == 0 then from else p[k - 1].Write()
    decreases |p|
  {
    if k > 0 { PathStep(p[0].Write(), p[1..], to, k - 1); }
  }

  /** Time strictly increases along a path. */
  lemma {:induction false} PathIncreasing<A,
      V>(from: Record<A, V>, p: seq<Access<A, V>>, to: Record<A, V>, i: nat, j: nat)
    requires Path(from, p, to) && Forward(p) && i < j < |p|
    ensures p[i].ts <= p[j].prevTs < p[j].ts
    decreases j
  {
    PathStep(from, p, to, j);
    if i < j - 1 { PathIncreasing(from, p, to, i, j - 1); }
  }

  // ---------- all addresses ----------

  function AtAddress<A(==), V>(records: seq<Record<A, V>>, a: A): (r: seq<Record<A, V>>) {
    if records == [] then []
    else (if records[0].addr == a then [records[0]] else []) + AtAddress(records[1..], a)
  }

  function AccessesAt<A(==), V>(log: seq<Access<A, V>>, a: A): (r: seq<Access<A, V>>) {
    if log == [] then []
    else (if log[0].addr == a then [log[0]] else []) + AccessesAt(log[1..], a)
  }

  lemma RecordsConcat<A, V>(s: seq<Access<A, V>>, t: seq<Access<A, V>>)
    ensures Reads(s + t) == Reads(s) + Reads(t) && Writes(s + t) == Writes(s) + Writes(t)
    ensures Forward(s) && Forward(t) ==> Forward(s + t)
  {
  }

  lemma {:induction false} AccessesAtRecords<A, V>(log: seq<Access<A, V>>, a: A)
    ensures Reads(AccessesAt(log, a)) == AtAddress(Reads(log), a)
    ensures Writes(AccessesAt(log, a)) == AtAddress(Writes(log), a)
    ensures Forward(log) ==> Forward(AccessesAt(log, a))
  {
    if log != [] {
      var head := if log[0].addr == a then [log[0]] else [];
      AccessesAtRecords(log[1..], a);
      RecordsConcat(head, AccessesAt(log[1..], a));
      hide AccessesAt;
      AccessesAtUnfold(log, a);
      assert Reads(log)[1..] == Reads(log[1..]);
      assert Writes(log)[1..] == Writes(log[1..]);
      assert Reads(head) == if log[0].addr == a then [log[0].Read()] else [];
      assert Writes(head) == if log[0].addr == a then [log[0].Write()] else [];
      if Forward(log) { assert Forward(log[1..]) by { Shorter(log); } assert Forward(head); }
    }
  }

  lemma Shorter<A, V>(log: seq<Access<A, V>>)
    requires log != [] && Forward(log)
    ensures Forward(log[1..])
  {
    forall i | 0 <= i < |log[1..]| ensures log[1..][i].prevTs < log[1..][i].ts { assert log[1..][i] == log[i + 1]; }
  }

  lemma AccessesAtUnfold<A, V>(log: seq<Access<A, V>>, a: A)
    requires log != []
    ensures AccessesAt(log, a) == (if log[0].addr == a then [log[0]] else []) + AccessesAt(log[1..], a)
  {
  }

  lemma {:induction false} AtMostOne<A, V>(records: seq<Record<A, V>>, a: A)
    requires OnePerAddress(records)
    ensures |AtAddress(records, a)| <= 1
    ensures forall x :: x in AtAddress(records, a) ==> x.addr == a && x in records
    ensures AtAddress(records, a) == [] <==> forall i :: 0 <= i < |records| ==> records[i].addr != a
  {
    if records != [] {
      AtMostOne(records[1..], a);
      if records[0].addr == a {
        forall i | 0 <= i < |records[1..]|
            ensures records[1..][i].addr != a { assert records[i + 1].addr != records[0].addr; }
      }
    }
  }

  lemma AtAddressUnfold<A, V>(s: seq<Record<A, V>>, a: A)
    ensures s != [] ==> AtAddress(s, a) == (if s[0].addr == a then [s[0]] else []) + AtAddress(s[1..], a)
    ensures s == [] ==> AtAddress(s, a) == []
  {
  }

  lemma {:induction false} AtAddressConcat<A, V>(s: seq<Record<A, V>>, t: seq<Record<A, V>>, a: A)
    ensures AtAddress(s + t, a) == AtAddress(s, a) + AtAddress(t, a)
  {
    hide AtAddress;
    AtAddressUnfold(s, a);
    AtAddressUnfold(s + t, a);
    if s == [] {
      assert s + t == t;
    } else {
      assert (s + t)[1..] == s[1..] + t;
      AtAddressConcat(s[1..], t, a);
    }
  }

  lemma AtAddressRemove<A, V>(t: seq<Record<A, V>>, i: nat, a: A)
    requires i < |t|
    ensures multiset(AtAddress(t, a))
              == multiset(if t[i].addr == a then [t[i]] else []) + multiset(AtAddress(t[..i] + t[i + 1..], a))
  {
    hide AtAddress;
    assert t == t[..i] + ([t[i]] + t[i + 1..]);
    AtAddressConcat(t[..i], [t[i]] + t[i + 1..], a);
    AtAddressConcat(t[..i], t[i + 1..], a);
    AtAddressUnfold([t[i]] + t[i + 1..], a);
    assert ([t[i]] + t[i + 1..])[1..] == t[i + 1..];
  }

  lemma {:induction false} SameAt<A, V>(s: seq<Record<A, V>>, t: seq<Record<A, V>>, a: A)
    requires multiset(s) == multiset(t)
    ensures multiset(AtAddress(s, a)) == multiset(AtAddress(t, a))
    decreases |s|
  {
    hide AtAddress;
    if s == [] {
      assert |multiset(t)| == 0;
      assert t == [];
    } else {
      assert s[0] in multiset(t);
      var i :| 0 <= i < |t| && t[i] == s[0];
      var rest := t[..i] + t[i + 1..];
      assert t == t[..i] + [t[i]] + t[i + 1..];
      assert s == [s[0]] + s[1..];
      assert multiset(s[1..]) + multiset{s[0]} == multiset(s);
      assert multiset(rest) + multiset{s[0]} == multiset(t);
      Cancel(multiset(s[1..]), multiset(rest), s[0]);
      SameAt(s[1..], rest, a);
      AtAddressRemove(t, i, a);
      AtAddressUnfold(s, a);
    }
  }

  lemma BalancedAt<A, V>(inits: seq<Record<A, V>>, log: seq<Access<A, V>>, finals: seq<Record<A, V>>, a: A)
    requires Balanced(inits, log, finals)
    ensures Balanced(AtAddress(inits, a), AccessesAt(log, a), AtAddress(finals, a))
  {
    hide AtAddress, AccessesAt;
    AccessesAtRecords(log, a);
    AtAddressConcat(inits, Writes(log), a);
    AtAddressConcat(Reads(log), finals, a);
    SameAt(inits + Writes(log), Reads(log) + finals, a);
  }

  lemma {:induction false} AccessesAtCount<A, V>(log: seq<Access<A, V>>, a: A, x: Access<A, V>)
    ensures multiset(AccessesAt(log, a))[x] == if x.addr == a then multiset(log)[x] else 0
  {
    if log != [] {
      AccessesAtCount(log[1..], a, x);
      assert log == [log[0]] + log[1..];
    }
  }

  lemma Position<X>(s: seq<X>, x: X) returns (k: nat)
    requires multiset(s)[x] > 0
    ensures k < |s| && s[k] == x
  {
    assert x in multiset(s);
    k :| 0 <= k < |s| && s[k] == x;
  }

  lemma Occurs<X>(s: seq<X>, k: nat)
    requires k < |s|
    ensures multiset(s)[s[k]] > 0
  {
    assert s[k] in s;
  }

  /** Balanced records force the accesses of every touched address onto one path from its initial to its final
      record, through all of its accesses. */
  lemma SinglePath<A, V>(inits: seq<Record<A, V>>, log: seq<Access<A, V>>, finals: seq<Record<A, V>>, a: A)
      returns (from: Record<A, V>, p: seq<Access<A, V>>, to: Record<A, V>)
    requires Balanced(inits, log, finals) && Forward(log) && OnePerAddress(inits) && OnePerAddress(finals)
    requires (exists i :: 0 <= i < |log| && log[i].addr == a) || (exists i :: 0 <= i < |finals| && finals[i].addr == a)
    ensures from in inits && to in finals && from.addr == to.addr == a
    ensures Path(from, p, to) && multiset(p) == multiset(AccessesAt(log, a)) && Forward(p)
  {
    hide AtAddress, AccessesAt, Reads, Writes;
    BalancedAt(inits, log, finals, a);
    AtMostOne(inits, a);
    AtMostOne(finals, a);
    AccessesAtRecords(log, a);
    var i0, e, f0 := AtAddress(inits, a), AccessesAt(log, a), AtAddress(finals, a);
    assert |multiset(i0) + multiset(Writes(e))| == |multiset(Reads(e)) + multiset(f0)|;
    assert |i0| == |f0|;
    if i0 == [] {
      assert multiset(i0) + multiset(Writes(e)) == multiset(Writes(e));
      assert multiset(Reads(e)) + multiset(f0) == multiset(Reads(e));
      NoCircle(e);
      if i :| 0 <= i < |log| && log[i].addr == a {
        Occurs(log, i);
        AccessesAtCount(log, a, log[i]);
        assert false;
      }
    } else {
      from, to := i0[0], f0[0];
      assert i0 == [from] && f0 == [to];
      assert multiset(i0) == multiset{from} && multiset(f0) == multiset{to};
      p := LineUp(from, e, to);
      ForwardPath(p, e);
    }
  }

  lemma ForwardPath<A, V>(p: seq<Access<A, V>>, e: seq<Access<A, V>>)
    requires multiset(p) == multiset(e) && Forward(e)
    ensures Forward(p)
  {
    forall i | 0 <= i < |p| ensures p[i].prevTs < p[i].ts {
      Occurs(p, i);
      var k := Position(e, p[i]);
    }
  }

  lemma OnPath<A, V>(log: seq<Access<A, V>>, a: A, p: seq<Access<A, V>>, i: nat) returns (k: nat)
    requires multiset(p) == multiset(AccessesAt(log, a)) && i < |log| && log[i].addr == a
    ensures k < |p| && p[k] == log[i]
  {
    Occurs(log, i);
    AccessesAtCount(log, a, log[i]);
    k := Position(p, log[i]);
  }

  lemma FromPath<A, V>(log: seq<Access<A, V>>, a: A, p: seq<Access<A, V>>, k: nat) returns (i: nat)
    requires multiset(p) == multiset(AccessesAt(log, a)) && k < |p|
    ensures i < |log| && log[i].addr == a && p[k] == log[i]
  {
    Occurs(p, k);
    AccessesAtCount(log, a, p[k]);
    i := Position(log, p[k]);
  }

  ghost predicate SameAddress<A, V>(log: seq<Access<A, V>>, i: nat, j: nat)
    requires i < |log| && j < |log|
  {
    log[i].addr == log[j].addr
  }

  /** Access j is the latest one before access i to the same address. */
  ghost predicate LatestBefore<A, V>(log: seq<Access<A, V>>, i: nat, j: nat)
    requires i < |log| && j < |log|
  {
    && SameAddress(log, i, j) && log[j].ts < log[i].ts
    && forall m: nat :: m < |log| && SameAddress(log, i, m) && log[m].ts < log[i].ts ==> log[m].ts <= log[j].ts
  }

  /** Access i reads what the latest earlier access to its address wrote, or the initial value if there is none. */
  ghost predicate ReadsLatest<A, V>(inits: seq<Record<A, V>>, log: seq<Access<A, V>>, i: nat)
    requires i < |log|
  {
    || (exists j: nat :: j < |log| && LatestBefore(log, i, j) && log[i].Read() == log[j].Write())
    || (log[i].Read() in inits && forall m: nat :: m < |log| && SameAddress(log, i, m) ==> log[i].ts <= log[m].ts)
  }

  /** Soundness of offline memory checking: balanced records and increasing times make every read return the last
      value written, whatever the order in which the accesses are listed. */
  lemma BalancedMemoryIsConsistent<A,
      V>(inits: seq<Record<A, V>>, log: seq<Access<A, V>>, finals: seq<Record<A, V>>, i: nat)
    requires Balanced(inits, log, finals) && Forward(log) && OnePerAddress(inits) && OnePerAddress(finals) && i < |log|
    ensures ReadsLatest(inits, log, i)
    ensures forall m: nat :: m < |log| && m != i && SameAddress(log, i, m) ==> log[m].ts != log[i].ts
  {
    var a := log[i].addr;
    var from, p, to := SinglePath(inits, log, finals, a);
    var k := OnPath(log, a, p, i);
    hide AccessesAt, Balanced;
    PathStep(from, p, to, k);
    forall m: nat | m < |log| && SameAddress(log, i, m)
      ensures m != i ==> log[m].ts != log[i].ts
      ensures log[m].ts < log[i].ts ==> k > 0 && log[m].ts <= p[k - 1].ts
    {
      var q := OnPath(log, a, p, m);
      if q < k {
        PathIncreasing(from, p, to, q, k);
        if q < k - 1 { PathIncreasing(from, p, to, q, k - 1); }
      } else if k < q {
        PathIncreasing(from, p, to, k, q);
      } else if m != i {
        TwiceOnPath(from, log, a, p, to, i, m);
      }
    }
    if k > 0 {
      PathIncreasing(from, p, to, k - 1, k);
      var j := FromPath(log, a, p, k - 1);
      assert LatestBefore(log, i, j);
    }
  }

  lemma Twice<X>(s: seq<X>, i: nat, j: nat)
    requires i < j < |s| && s[i] == s[j]
    ensures multiset(s)[s[i]] >= 2
  {
    assert s == s[..j] + [s[j]] + s[j + 1..];
    Occurs(s[..j], i);
  }

  lemma Once<X>(s: seq<X>, k: nat)
    requires k < |s| && forall q :: 0 <= q < |s| && q != k ==> s[q] != s[k]
    ensures multiset(s)[s[k]] == 1
  {
    assert s == s[..k] + [s[k]] + s[k + 1..];
    assert s[k] !in s[..k] && s[k] !in s[k + 1..];
  }

  /** The same access does not happen twice. */
  lemma TwiceOnPath<A,
      V>(from: Record<A, V>, log: seq<Access<A, V>>, a: A, p: seq<Access<A, V>>, to: Record<A, V>, i: nat, j: nat)
    requires Path(from, p, to) && Forward(p) && multiset(p) == multiset(AccessesAt(log, a))
    requires i < |log| && j < |log| && i != j && log[i].addr == a
    ensures log[i] != log[j]
  {
    if log[i] == log[j] {
      Twice(log, if i < j then i else j, if i < j then j else i);
      AccessesAtCount(log, a, log[i]);
      var k := Position(p, log[i]);
      forall q | 0 <= q < |p| && q != k ensures p[q] != p[k] {
        if q < k { PathIncreasing(from, p, to, q, k); } else { PathIncreasing(from, p, to, k, q); }
      }
      Once(p, k);
      assert false;
    }
  }

  /** Every final record is the last write to its address, or its initial record when it was never accessed. */
  lemma FinalIsLastWrite<A, V>(inits: seq<Record<A, V>>, log: seq<Access<A, V>>, finals: seq<Record<A, V>>, f: nat)
    requires Balanced(inits, log, finals) && Forward(log) && OnePerAddress(inits) && OnePerAddress(finals) &&
               f < |finals|
    ensures || (exists j: nat :: j < |log| && finals[f] == log[j].Write()
                 && forall m: nat :: m < |log| && SameAddress(log, j, m) ==> log[m].ts <= log[j].ts)
            || (finals[f] in inits && forall m: nat :: m < |log| ==> log[m].addr != finals[f].addr)
  {
    var a := finals[f].addr;
    var from, p, to := SinglePath(inits, log, finals, a);
    hide AccessesAt, Balanced;
    assert to == finals[f] by { var g :| 0 <= g < |finals| && finals[g] == to; }
    PathStep(from, p, to, |p|);
    if p == [] {
      forall m: nat | m < |log| ensures log[m].addr != a { if log[m].addr == a { var k := OnPath(log, a, p, m); } }
    } else {
      var j := FromPath(log, a, p, |p| - 1);
      forall m: nat | m < |log| && SameAddress(log, j, m) ensures log[m].ts <= log[j].ts {
        var k := OnPath(log, a, p, m);
        if k < |p| - 1 { PathIncreasing(from, p, to, k, |p| - 1); }
      }
    }
  }

  // ---------- traces in which every access names its predecessor ----------

  /** The value of an address after a trace. */
  function ValueAt<A(==), V>(init: A -> V, log: seq<Access<A, V>>, a: A): V {
    if log == [] then init(a)
    else if log[|log| - 1].addr == a then log[|log| - 1].after
    else ValueAt(init, log[..|log| - 1], a)
  }

  /** The time of the last access to an address, or zero. */
  function LastTs<A(==), V>(log: seq<Access<A, V>>, a: A): nat {
    if log == [] then 0
    else if log[|log| - 1].addr == a then log[|log| - 1].ts
    else LastTs(log[..|log| - 1], a)
  }

  /** Every access names the time of its predecessor, is later, and sees the value it left. */
  ghost predicate Chained<A, V>(init: A -> V, log: seq<Access<A, V>>) {
    log == [] ||
    (var x, before := log[|log| - 1], log[..|log| - 1];
     Chained(init, before) && x.before == ValueAt(init, before, x.addr) && x.prevTs == LastTs(before, x.addr) < x.ts)
  }

  ghost predicate NoDuplicates<A>(addrs: seq<A>) {
    forall i, j :: 0 <= i < j < |addrs| ==> addrs[i] != addrs[j]
  }

  function InitRecords<A, V>(init: A -> V, addrs: seq<A>): (r: seq<Record<A, V>>)
    ensures |r| == |addrs| && forall i :: 0 <= i < |r| ==> r[i] == Record(addrs[i], init(addrs[i]), 0)
  {
    seq(|addrs|, i requires 0 <= i < |addrs| => Record(addrs[i], init(addrs[i]), 0))
  }

  function FinalRecords<A(==), V>(init: A -> V, log: seq<Access<A, V>>, addrs: seq<A>): (r: seq<Record<A, V>>)
    ensures |r| == |addrs| && forall i :: 0 <= i < |r| ==>
              r[i] == Record(addrs[i], ValueAt(init, log, addrs[i]), LastTs(log, addrs[i]))
  {
    seq(|addrs|, i requires 0 <= i < |addrs| => Record(addrs[i], ValueAt(init, log, addrs[i]), LastTs(log, addrs[i])))
  }

  lemma Replace<X>(s: seq<X>, i: nat, x: X)
    requires i < |s|
    ensures multiset(s[i := x]) + multiset{s[i]} == multiset(s) + multiset{x}
  {
    assert s == s[..i] + [s[i]] + s[i + 1..];
    assert s[i := x] == s[..i] + [x] + s[i + 1..];
  }

  /** Completeness of offline memory checking: a chained trace balances against the initial and the final records of
      any duplicate-free list of addresses that covers it. */
  lemma {:induction false} ChainedTraceBalances<A, V>(init: A -> V, log: seq<Access<A, V>>, addrs: seq<A>)
    requires Chained(init, log) && NoDuplicates(addrs) && forall i :: 0 <= i < |log| ==> log[i].addr in addrs
    ensures Balanced(InitRecords(init, addrs), log, FinalRecords(init, log, addrs)) && Forward(log)
    ensures OnePerAddress(InitRecords(init, addrs)) && OnePerAddress(FinalRecords(init, log, addrs))
    decreases |log|
  {
    if log == [] {
      assert InitRecords(init, addrs) == FinalRecords(init, log, addrs);
    } else {
      var x, before := log[|log| - 1], log[..|log| - 1];
      assert log == before + [x];
      forall i | 0 <= i < |before| ensures before[i].addr in addrs { assert before[i] == log[i]; }
      ChainedTraceBalances(init, before, addrs);
      var i :| 0 <= i < |addrs| && addrs[i] == x.addr;
      var fs := FinalRecords(init, before, addrs);
      assert FinalRecords(init, log, addrs) == fs[i := x.Write()];
      assert fs[i] == x.Read();
      Replace(fs, i, x.Write());
      RecordsConcat(before, [x]);
      assert Reads([x]) == [x.Read()] && Writes([x]) == [x.Write()];
      forall k | 0 <= k < |log| ensures log[k].prevTs < log[k].ts { if k < |before| { assert log[k] == before[k]; } }
      OneMore(multiset(InitRecords(init, addrs)), multiset(Writes(before)), multiset(Reads(before)), multiset(fs),
              multiset(fs[i := x.Write()]), x.Read(), x.Write());
    }
  }

  lemma OneMore<X>(inits: multiset<X>, ws: multiset<X>, rs: multiset<X>, finals: multiset<X>, after: multiset<X>, r: X,
                   w: X)
    requires inits + ws == rs + finals && after + multiset{r} == finals + multiset{w}
    ensures inits + (ws + multiset{w}) == (rs + multiset{r}) + after
  {
    assert inits + (ws + multiset{w}) == (inits + ws) + multiset{w};
    assert (rs + finals) + multiset{w} == rs + (finals + multiset{w});
    assert rs + (after + multiset{r}) == (rs + multiset{r}) + after;
  }
}

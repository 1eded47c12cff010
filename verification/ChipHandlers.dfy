/** The register and memory operations of the chips: each appends one read and one write record and one order
    constraint.  A satisfied circuit with balanced records is a consistent memory, and the trace of the emulator
    satisfies such a circuit. */
module ChipHandlers {
  import opened MemoryArgument
  import opened Words
  import opened Rv32im
  import opened Traces

  /** The RAM type is part of the record, so register 5 and memory address 5 are different. */
  datatype RamAddr = Register(id: nat) | Memory(addr: nat)

  class CircuitBuilder<V(==)> {
    var readRecords: seq<Record<RamAddr, V>>
    var writeRecords: seq<Record<RamAddr, V>>
    /** The operands of every `prev_ts < ts` constraint. */
    var lessThan: seq<(nat, nat)>
    /** The accesses these records stand for. */
    ghost var log: seq<Access<RamAddr, V>>

    ghost predicate Valid()
      reads this
    {
      Describes(log, readRecords, writeRecords, lessThan)
    }

    constructor ()
      ensures Valid() && log == []
    {
      readRecords, writeRecords, lessThan, log := [], [], [], [];
    }

    method RegisterRead(id: nat, prevTs: nat, ts: nat, value: V) returns (nextTs: nat)
      requires Valid()
      modifies this
      ensures Valid() && log == old(log) + [Access(Register(id), value, value, prevTs, ts)] && nextTs == ts + 1
    {
      nextTs := Append(Register(id), prevTs, ts, value, value);
    }

    method RegisterWrite(id: nat, prevTs: nat, ts: nat, prevValue: V, value: V) returns (nextTs: nat)
      requires Valid()
      modifies this
      ensures Valid() && log == old(log) + [Access(Register(id), prevValue, value, prevTs, ts)] && nextTs == ts + 1
    {
      nextTs := Append(Register(id), prevTs, ts, prevValue, value);
    }

    method MemoryRead(addr: nat, prevTs: nat, ts: nat, value: V) returns (nextTs: nat)
      requires Valid()
      modifies this
      ensures Valid() && log == old(log) + [Access(Memory(addr), value, value, prevTs, ts)] && nextTs == ts + 1
    {
      nextTs := Append(Memory(addr), prevTs, ts, value, value);
    }

    method MemoryWrite(addr: nat, prevTs: nat, ts: nat, prevValue: V, value: V) returns (nextTs: nat)
      requires Valid()
      modifies this
      ensures Valid() && log == old(log) + [Access(Memory(addr), prevValue, value, prevTs, ts)] && nextTs == ts + 1
    {
      nextTs := Append(Memory(addr), prevTs, ts, prevValue, value);
    }

    /** The common body: the previous value and time are read, the new ones are written, and time must increase. */
    method Append(addr: RamAddr, prevTs: nat, ts: nat, prevValue: V, value: V) returns (nextTs: nat)
      requires Valid()
      modifies this
      ensures Valid() && log == old(log) + [Access(addr, prevValue, value, prevTs, ts)] && nextTs == ts + 1
      ensures readRecords == old(readRecords) + [Record(addr, prevValue, prevTs)]
      ensures writeRecords == old(writeRecords) + [Record(addr, value, ts)]
      ensures lessThan == old(lessThan) + [(prevTs, ts)]
    {
      readRecords := readRecords + [Record(addr, prevValue, prevTs)];
      writeRecords := writeRecords + [Record(addr, value, ts)];
      lessThan := lessThan + [(prevTs, ts)];
      ghost var x := Access(addr, prevValue, value, prevTs, ts);
      RecordsConcat(log, [x]);
      assert Reads([x]) == [x.Read()] && Writes([x]) == [x.Write()];
      log := log + [x];
      nextTs := ts + 1;
    }
  }

  ghost predicate Describes<V>(log: seq<Access<RamAddr, V>>, rs: seq<Record<RamAddr, V>>, ws: seq<Record<RamAddr, V>>,
                               lessThan: seq<(nat, nat)>)
  {
    && rs == Reads(log) && ws == Writes(log) && |lessThan| == |log|
    && forall i :: 0 <= i < |log| ==> lessThan[i] == (log[i].prevTs, log[i].ts)
  }

  ghost predicate Satisfied(lessThan: seq<(nat, nat)>) {
    forall i :: 0 <= i < |lessThan| ==> lessThan[i].0 < lessThan[i].1
  }

  /** If the order constraints hold and the records of the circuit balance against one initial and one final record per
      address, every operation of the circuit reads the last value written. */
  lemma SatisfiedCircuitIsConsistent<V>(log: seq<Access<RamAddr, V>>, rs: seq<Record<RamAddr, V>>,
                                        ws: seq<Record<RamAddr, V>>,
                                        lessThan: seq<(nat, nat)>, inits: seq<Record<RamAddr, V>>,
                                            finals: seq<Record<RamAddr, V>>, i: nat)
    requires Describes(log, rs, ws, lessThan) && Satisfied(lessThan) && i < |log|
    requires multiset(inits) + multiset(ws) == multiset(rs) + multiset(finals)
    requires OnePerAddress(inits) && OnePerAddress(finals)
    ensures ReadsLatest(inits, log, i)
  {
    forall k | 0 <= k < |log| ensures log[k].prevTs < log[k].ts { assert lessThan[k].0 < lessThan[k].1; }
    BalancedMemoryIsConsistent(inits, log, finals, i);
  }

  // ---------- the trace of the emulator as a witness ----------

  /** The chips address registers by index and memory by address. */
  function RamOf(a: WordAddr): RamAddr {
    if IsRegAddr(a) then Register(RegisterIndex(a)) else Memory(a)
  }

  /** Register idx lies at the word address 64 * idx; everything else is memory. */
  lemma RamOfMeaning(a: WordAddr)
    ensures a % 64 == 0 && a / 64 <= 32 ==> RamOf(a) == Register(a / 64)
    ensures !(a % 64 == 0 && a / 64 <= 32) ==> RamOf(a) == Memory(a)
  {
  }

  lemma RamOfInjective(a: WordAddr, b: WordAddr)
    requires RamOf(a) == RamOf(b)
    ensures a == b
  {
  }

  function RamUse(x: Use): Access<RamAddr, Word> { Access(RamOf(x.addr), x.before, x.after, x.prevTs, x.ts) }

  function RamUses(trace: seq<Use>): (r: seq<Access<RamAddr, Word>>)
    ensures |r| == |trace| && forall i :: 0 <= i < |r| ==> r[i] == RamUse(trace[i])
  {
    seq(|trace|, i requires 0 <= i < |trace| => RamUse(trace[i]))
  }

  function RamRecord(r: Record<WordAddr, Word>): Record<RamAddr, Word> { Record(RamOf(r.addr), r.value, r.ts) }

  function RamRecords(rs: seq<Record<WordAddr, Word>>): (r: seq<Record<RamAddr, Word>>)
    ensures |r| == |rs| && forall i :: 0 <= i < |r| ==> r[i] == RamRecord(rs[i])
  {
    seq(|rs|, i requires 0 <= i < |rs| => RamRecord(rs[i]))
  }

  lemma RamRecordsWithout(t: seq<Record<WordAddr, Word>>, i: nat)
    requires i < |t|
    ensures multiset(RamRecords(t)) == multiset(RamRecords(Without(t, i))) + multiset{RamRecord(t[i])}
  {
    hide RamRecord;
    assert RamRecords(Without(t, i)) == Without(RamRecords(t), i);
  }

  lemma {:induction false} SameRamRecords(s: seq<Record<WordAddr, Word>>, t: seq<Record<WordAddr, Word>>)
    requires multiset(s) == multiset(t)
    ensures multiset(RamRecords(s)) == multiset(RamRecords(t))
    decreases |s|
  {
    hide *;
    if s == [] {
      assert |multiset(t)| == 0;
    } else {
      assert s[0] in multiset(t);
      var i :| 0 <= i < |t| && t[i] == s[0];
      Cancel(multiset(Without(s, 0)), multiset(Without(t, i)), s[0]);
      SameRamRecords(Without(s, 0), Without(t, i));
      RamRecordsWithout(s, 0);
      RamRecordsWithout(t, i);
    }
  }

  lemma RamRecordsConcat(s: seq<Record<WordAddr, Word>>, t: seq<Record<WordAddr, Word>>)
    ensures RamRecords(s + t) == RamRecords(s) + RamRecords(t)
  {
  }

  /** Renaming addresses keeps the balance, the order of times, and one record per address. */
  lemma RenamedBalances(inits: seq<Record<WordAddr, Word>>, trace: seq<Use>, finals: seq<Record<WordAddr, Word>>)
    requires Balanced(inits, trace, finals) && Forward(trace) && OnePerAddress(inits) && OnePerAddress(finals)
    ensures Balanced(RamRecords(inits), RamUses(trace), RamRecords(finals)) && Forward(RamUses(trace))
    ensures OnePerAddress(RamRecords(inits)) && OnePerAddress(RamRecords(finals))
  {
    SameRamRecords(inits + Writes(trace), Reads(trace) + finals);
    RamRecordsConcat(inits, Writes(trace));
    RamRecordsConcat(Reads(trace), finals);
    assert RamRecords(Writes(trace)) == Writes(RamUses(trace));
    assert RamRecords(Reads(trace)) == Reads(RamUses(trace));
    RenamedDistinct(inits);
    RenamedDistinct(finals);
  }

  lemma RenamedDistinct(rs: seq<Record<WordAddr, Word>>)
    requires OnePerAddress(rs)
    ensures OnePerAddress(RamRecords(rs))
  {
    hide RamOf;
    forall i, j | 0 <= i < j < |rs| ensures RamRecords(rs)[i].addr != RamRecords(rs)[j].addr {
      if RamOf(rs[i].addr) == RamOf(rs[j].addr) { RamOfInjective(rs[i].addr, rs[j].addr); }
    }
  }
}

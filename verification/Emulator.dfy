/** The virtual machine as the code runs it: a tracer and a machine state, both updated in place. */
module Emulator {
  import opened Wrappers
  import opened MemoryArgument
  import opened Words
  import opened Rv32im
  import opened Arithmetic
  import opened Meanings
  import opened Traces
  import opened EmulatorRuns

  datatype ReadOp = ReadOp(addr: WordAddr, value: Word, previousCycle: nat)

  datatype SyscallWitness = SyscallWitness(memOps: seq<WriteOp>, regOps: seq<WriteOp>)

  datatype StepRecord = StepRecord(cycle: nat, pcBefore: Word, pcAfter: Word, insn: Instruction, rs1: Option<ReadOp>,
                                   rs2: Option<ReadOp>, rd: Option<WriteOp>, memoryOp: Option<WriteOp>,
                                   syscall: Option<SyscallWitness>)

  const NO_INSN := Instruction(INVALID, 0, 0, 0, 0, 0)

  function EmptyRecord(cycle: nat): StepRecord {
    StepRecord(cycle, 0, 0, NO_INSN, None, None, None, None, None)
  }

  // ---------- the uses a record names ----------

  function ReadUse(op: Option<ReadOp>, ts: nat): seq<Use> {
    if op.None? then [] else [Access(op.value.addr, op.value.value, op.value.value, op.value.previousCycle, ts)]
  }

  function OpUse(op: WriteOp, ts: nat): Use { Access(op.addr, op.before, op.after, op.previousCycle, ts) }

  function WriteUse(op: Option<WriteOp>, ts: nat): seq<Use> {
    if op.None? then [] else [OpUse(op.value, ts)]
  }

  function OpUses(ops: seq<WriteOp>, ts: nat): (r: seq<Use>)
    ensures |r| == |ops| && forall i :: 0 <= i < |r| ==> r[i] == OpUse(ops[i], ts)
  {
    seq(|ops|, i requires 0 <= i < |ops| => OpUse(ops[i], ts))
  }

  function SyscallUses(w: Option<SyscallWitness>, cycle: nat): seq<Use> {
    if w.None? then [] else OpUses(w.value.regOps, cycle + SUBCYCLE_RD) + OpUses(w.value.memOps, cycle + SUBCYCLE_MEM)
  }

  /** All accesses that a step record reports to the circuits. */
  function RecordUses(r: StepRecord): multiset<Use> {
    multiset(ReadUse(r.rs1, r.cycle + SUBCYCLE_RS1)) + multiset(ReadUse(r.rs2, r.cycle + SUBCYCLE_RS2))
    + multiset(WriteUse(r.rd, r.cycle + SUBCYCLE_RD)) + multiset(WriteUse(r.memoryOp, r.cycle + SUBCYCLE_MEM))
    + multiset(SyscallUses(r.syscall, r.cycle))
  }

  lemma TraceGrows(trace: seq<Use>, more: seq<Use>, start: nat)
    requires start <= |trace|
    ensures (trace + more)[start..] == trace[start..] + more
    ensures multiset((trace + more)[start..]) == multiset(trace[start..]) + multiset(more)
  {
    assert (trace + more)[start..] == trace[start..] + more;
  }

  /** Replacing one empty part of a sum of five adds it. */
  lemma Replaced<X>(a: multiset<X>, b: multiset<X>, c: multiset<X>, d: multiset<X>, e: multiset<X>, x: multiset<X>)
    ensures a == multiset{} ==> x + b + c + d + e == (a + b + c + d + e) + x
    ensures b == multiset{} ==> a + x + c + d + e == (a + b + c + d + e) + x
    ensures c == multiset{} ==> a + b + x + d + e == (a + b + c + d + e) + x
    ensures d == multiset{} ==> a + b + c + x + e == (a + b + c + d + e) + x
    ensures e == multiset{} ==> a + b + c + d + x == (a + b + c + d + e) + x
  {
  }

  lemma WithRs1(r: StepRecord, op: ReadOp)
    requires r.rs1.None?
    ensures RecordUses(r.(rs1 := Some(op))) == RecordUses(r) + multiset(ReadUse(Some(op), r.cycle + SUBCYCLE_RS1))
  {
    NoUses(r);
    hide OpUse, OpUses, ReadUse, WriteUse, SyscallUses;
    Replaced(multiset(ReadUse(r.rs1, r.cycle + SUBCYCLE_RS1)), multiset(ReadUse(r.rs2, r.cycle + SUBCYCLE_RS2)),
             multiset(WriteUse(r.rd, r.cycle + SUBCYCLE_RD)), multiset(WriteUse(r.memoryOp, r.cycle + SUBCYCLE_MEM)),
             multiset(SyscallUses(r.syscall, r.cycle)), multiset(ReadUse(Some(op), r.cycle + SUBCYCLE_RS1)));
  }

  lemma WithRs2(r: StepRecord, op: ReadOp)
    requires r.rs2.None?
    ensures RecordUses(r.(rs2 := Some(op))) == RecordUses(r) + multiset(ReadUse(Some(op), r.cycle + SUBCYCLE_RS2))
  {
    NoUses(r);
    hide OpUse, OpUses, ReadUse, WriteUse, SyscallUses;
    Replaced(multiset(ReadUse(r.rs1, r.cycle + SUBCYCLE_RS1)), multiset(ReadUse(r.rs2, r.cycle + SUBCYCLE_RS2)),
             multiset(WriteUse(r.rd, r.cycle + SUBCYCLE_RD)), multiset(WriteUse(r.memoryOp, r.cycle + SUBCYCLE_MEM)),
             multiset(SyscallUses(r.syscall, r.cycle)), multiset(ReadUse(Some(op), r.cycle + SUBCYCLE_RS2)));
  }

  lemma WithRd(r: StepRecord, op: WriteOp)
    requires r.rd.None?
    ensures RecordUses(r.(rd := Some(op))) == RecordUses(r) + multiset(WriteUse(Some(op), r.cycle + SUBCYCLE_RD))
  {
    NoUses(r);
    hide OpUse, OpUses, ReadUse, WriteUse, SyscallUses;
    Replaced(multiset(ReadUse(r.rs1, r.cycle + SUBCYCLE_RS1)), multiset(ReadUse(r.rs2, r.cycle + SUBCYCLE_RS2)),
             multiset(WriteUse(r.rd, r.cycle + SUBCYCLE_RD)), multiset(WriteUse(r.memoryOp, r.cycle + SUBCYCLE_MEM)),
             multiset(SyscallUses(r.syscall, r.cycle)), multiset(WriteUse(Some(op), r.cycle + SUBCYCLE_RD)));
  }

  lemma WithMemoryOp(r: StepRecord, op: WriteOp)
    requires r.memoryOp.None?
    ensures RecordUses(r.(memoryOp := Some(op))) == RecordUses(r) + multiset(WriteUse(Some(op), r.cycle + SUBCYCLE_MEM))
  {
    NoUses(r);
    hide OpUse, OpUses, ReadUse, WriteUse, SyscallUses;
    Replaced(multiset(ReadUse(r.rs1, r.cycle + SUBCYCLE_RS1)), multiset(ReadUse(r.rs2, r.cycle + SUBCYCLE_RS2)),
             multiset(WriteUse(r.rd, r.cycle + SUBCYCLE_RD)), multiset(WriteUse(r.memoryOp, r.cycle + SUBCYCLE_MEM)),
             multiset(SyscallUses(r.syscall, r.cycle)), multiset(WriteUse(Some(op), r.cycle + SUBCYCLE_MEM)));
  }

  lemma WithSyscall(r: StepRecord, op: SyscallWitness)
    requires r.syscall.None?
    ensures RecordUses(r.(syscall := Some(op))) == RecordUses(r) + multiset(SyscallUses(Some(op), r.cycle))
  {
    NoUses(r);
    hide OpUse, OpUses, ReadUse, WriteUse, SyscallUses;
    Replaced(multiset(ReadUse(r.rs1, r.cycle + SUBCYCLE_RS1)), multiset(ReadUse(r.rs2, r.cycle + SUBCYCLE_RS2)),
             multiset(WriteUse(r.rd, r.cycle + SUBCYCLE_RD)), multiset(WriteUse(r.memoryOp, r.cycle + SUBCYCLE_MEM)),
             multiset(SyscallUses(r.syscall, r.cycle)), multiset(SyscallUses(Some(op), r.cycle)));
  }

  lemma NoUses(r: StepRecord)
    ensures r.rs1.None? ==> multiset(ReadUse(r.rs1, r.cycle + SUBCYCLE_RS1)) == multiset{}
    ensures r.rs2.None? ==> multiset(ReadUse(r.rs2, r.cycle + SUBCYCLE_RS2)) == multiset{}
    ensures r.rd.None? ==> multiset(WriteUse(r.rd, r.cycle + SUBCYCLE_RD)) == multiset{}
    ensures r.memoryOp.None? ==> multiset(WriteUse(r.memoryOp, r.cycle + SUBCYCLE_MEM)) == multiset{}
    ensures r.syscall.None? ==> multiset(SyscallUses(r.syscall, r.cycle)) == multiset{}
  {
  }

  lemma RecordPc(r: StepRecord, pcBefore: Word, pcAfter: Word, insn: Instruction)
    ensures RecordUses(r.(pcAfter := pcAfter)) == RecordUses(r)
    ensures RecordUses(r.(pcBefore := pcBefore, insn := insn)) == RecordUses(r)
  {
    hide OpUse, OpUses, ReadUse, WriteUse, SyscallUses;
  }

  // ---------- the order of the uses ----------

  /** The uses at one time, in their order. */
  function AtTime(uses: seq<Use>, ts: nat): seq<Use> {
    if uses == [] then []
    else AtTime(uses[..|uses| - 1], ts) + (if uses[|uses| - 1].ts == ts then [uses[|uses| - 1]] else [])
  }

  lemma AtTimeSnoc(uses: seq<Use>, x: Use, ts: nat)
    ensures AtTime(uses + [x], ts) == AtTime(uses, ts) + (if x.ts == ts then [x] else [])
  {
    assert (uses + [x])[..|uses|] == uses;
  }

  lemma {:induction false} AtTimeConcat(s: seq<Use>, t: seq<Use>, ts: nat)
    ensures AtTime(s + t, ts) == AtTime(s, ts) + AtTime(t, ts)
  {
    if t == [] {
      assert s + t == s;
    } else {
      assert (s + t)[..|s + t| - 1] == s + t[..|t| - 1];
      AtTimeConcat(s, t[..|t| - 1], ts);
    }
  }

  lemma {:induction false} AtTimeOps(ops: seq<WriteOp>, now: nat, ts: nat)
    ensures AtTime(OpUses(ops, now), ts) == if ts == now then OpUses(ops, now) else []
  {
    if ops != [] {
      AtTimeOps(ops[..|ops| - 1], now, ts);
      assert OpUses(ops, now)[..|ops| - 1] == OpUses(ops[..|ops| - 1], now);
      assert OpUses(ops, now) == OpUses(ops[..|ops| - 1], now) + [OpUse(ops[|ops| - 1], now)];
    }
  }

  /** The register and the memory operations of a record: its own, or those of its system call. */
  function RegisterUses(r: StepRecord): seq<Use> {
    WriteUse(r.rd, r.cycle + SUBCYCLE_RD)
    + if r.syscall.None? then [] else OpUses(r.syscall.value.regOps, r.cycle + SUBCYCLE_RD)
  }

  function MemoryUses(r: StepRecord): seq<Use> {
    WriteUse(r.memoryOp, r.cycle + SUBCYCLE_MEM)
    + if r.syscall.None? then [] else OpUses(r.syscall.value.memOps, r.cycle + SUBCYCLE_MEM)
  }

  /** An instruction makes its own writes or those of a system call, not both. */
  predicate OneKind(r: StepRecord) { r.syscall.None? || (r.rd.None? && r.memoryOp.None?) }

  /** A record names the uses of every subcycle in their order. */
  ghost predicate InOrder(uses: seq<Use>, r: StepRecord) {
    && AtTime(uses, r.cycle + SUBCYCLE_RS1) == ReadUse(r.rs1, r.cycle + SUBCYCLE_RS1)
    && AtTime(uses, r.cycle + SUBCYCLE_RS2) == ReadUse(r.rs2, r.cycle + SUBCYCLE_RS2)
    && (OneKind(r) ==>
          && AtTime(uses, r.cycle + SUBCYCLE_RD) == RegisterUses(r)
          && AtTime(uses, r.cycle + SUBCYCLE_MEM) == MemoryUses(r))
  }

  lemma InOrderRs1(uses: seq<Use>, r: StepRecord, op: ReadOp)
    requires InOrder(uses, r) && r.rs1.None?
    ensures InOrder(uses + ReadUse(Some(op), r.cycle + SUBCYCLE_RS1), r.(rs1 := Some(op)))
  {
    hide AtTime;
    var more := ReadUse(Some(op), r.cycle + SUBCYCLE_RS1);
    assert more == [more[0]];
    forall ts: nat ensures AtTime(uses + more, ts) == AtTime(uses, ts) + (if more[0].ts == ts then more else []) {
      AtTimeSnoc(uses, more[0], ts);
    }
  }

  lemma InOrderRs2(uses: seq<Use>, r: StepRecord, op: ReadOp)
    requires InOrder(uses, r) && r.rs2.None?
    ensures InOrder(uses + ReadUse(Some(op), r.cycle + SUBCYCLE_RS2), r.(rs2 := Some(op)))
  {
    hide AtTime;
    var more := ReadUse(Some(op), r.cycle + SUBCYCLE_RS2);
    assert more == [more[0]];
    forall ts: nat ensures AtTime(uses + more, ts) == AtTime(uses, ts) + (if more[0].ts == ts then more else []) {
      AtTimeSnoc(uses, more[0], ts);
    }
  }

  lemma InOrderRd(uses: seq<Use>, r: StepRecord, op: WriteOp)
    requires InOrder(uses, r) && r.rd.None?
    ensures InOrder(uses + WriteUse(Some(op), r.cycle + SUBCYCLE_RD), r.(rd := Some(op)))
  {
    hide AtTime;
    var more := WriteUse(Some(op), r.cycle + SUBCYCLE_RD);
    assert more == [more[0]];
    forall ts: nat ensures AtTime(uses + more, ts) == AtTime(uses, ts) + (if more[0].ts == ts then more else []) {
      AtTimeSnoc(uses, more[0], ts);
    }
  }

  lemma InOrderMemoryOp(uses: seq<Use>, r: StepRecord, op: WriteOp)
    requires InOrder(uses, r) && r.memoryOp.None?
    ensures InOrder(uses + WriteUse(Some(op), r.cycle + SUBCYCLE_MEM), r.(memoryOp := Some(op)))
  {
    hide AtTime;
    var more := WriteUse(Some(op), r.cycle + SUBCYCLE_MEM);
    assert more == [more[0]];
    forall ts: nat ensures AtTime(uses + more, ts) == AtTime(uses, ts) + (if more[0].ts == ts then more else []) {
      AtTimeSnoc(uses, more[0], ts);
    }
  }

  lemma InOrderSyscall(uses: seq<Use>, r: StepRecord, op: SyscallWitness)
    requires InOrder(uses, r) && r.syscall.None?
    ensures InOrder(uses + SyscallUses(Some(op), r.cycle), r.(syscall := Some(op)))
  {
    hide AtTime, OpUses;
    var regs, mems := OpUses(op.regOps, r.cycle + SUBCYCLE_RD), OpUses(op.memOps, r.cycle + SUBCYCLE_MEM);
    forall ts: nat
        ensures AtTime(uses + (regs + mems), ts) == AtTime(uses, ts) + (AtTime(regs, ts) + AtTime(mems, ts)) {
      AtTimeConcat(uses, regs + mems, ts);
      AtTimeConcat(regs, mems, ts);
    }
    forall ts: nat
      ensures AtTime(regs, ts) == if ts == r.cycle + SUBCYCLE_RD then regs else []
      ensures AtTime(mems, ts) == if ts == r.cycle + SUBCYCLE_MEM then mems else []
    {
      AtTimeOps(op.regOps, r.cycle + SUBCYCLE_RD, ts);
      AtTimeOps(op.memOps, r.cycle + SUBCYCLE_MEM, ts);
    }
  }

  lemma InOrderPc(uses: seq<Use>, r: StepRecord, pcBefore: Word, pcAfter: Word, insn: Instruction)
    ensures InOrder(uses, r.(pcAfter := pcAfter)) <==> InOrder(uses, r)
    ensures InOrder(uses, r.(pcBefore := pcBefore, insn := insn)) <==> InOrder(uses, r)
  {
    hide AtTime, OpUse, OpUses;
  }

  lemma NoneRecorded(cycle: nat)
    ensures InOrder([], EmptyRecord(cycle)) && RecordUses(EmptyRecord(cycle)) == multiset{}
  {
  }

  // ---------- the tracer ----------

  /** The map gives the time of the last access to every address. */
  ghost predicate LatestIn(latest: map<WordAddr, nat>, trace: seq<Use>) {
    forall a: WordAddr :: (if a in latest then latest[a] else 0) == LastTs(trace, a)
  }

  class Tracer {
    var record: StepRecord
    var latestAccesses: map<WordAddr, nat>
    /** Everything tracked so far, and where the current instruction starts. */
    ghost var trace: seq<Use>
    ghost var start: nat

    ghost predicate Valid()
      reads this
    {
      && start <= |trace|
      && LatestIn(latestAccesses, trace)
      && multiset(trace[start..]) == RecordUses(record)
      && InOrder(trace[start..], record)
    }

    constructor ()
      ensures Valid() && record == EmptyRecord(SUBCYCLES_PER_INSN) && trace == [] && start == 0
    {
      record, latestAccesses, trace, start := EmptyRecord(SUBCYCLES_PER_INSN), map[], [], 0;
    }

    /** `track_access`: the cycle of the previous access, or zero; this access becomes the latest. */
    method TrackAccess(addr: WordAddr, subcycle: nat, ghost before: Word, ghost after: Word) returns (previous: nat)
      requires LatestIn(latestAccesses, trace)
      modifies this
      ensures previous == LastTs(old(trace), addr)
      ensures trace == old(trace) + [Stamped(old(trace), record.cycle, Touch(addr, before, after, subcycle))]
      ensures LatestIn(latestAccesses, trace)
      ensures record == old(record) && start == old(start)
    {
      previous := if addr in latestAccesses then latestAccesses[addr] else 0;
      latestAccesses := latestAccesses[addr := record.cycle + subcycle];
      ghost var x := Stamped(trace, record.cycle, Touch(addr, before, after, subcycle));
      forall a: WordAddr ensures LastTs(trace + [x], a) == if a == addr then x.ts else LastTs(trace, a) {
        Snoc(_ => 0, trace, x, a);
      }
      trace := trace + [x];
    }

    /** Returns the completed record and starts the next instruction. */
    method Advance() returns (step: StepRecord)
      requires Valid()
      modifies this
      ensures Valid() && step == old(record) && record == EmptyRecord(old(record.cycle) + SUBCYCLES_PER_INSN)
      ensures trace == old(trace) && start == |trace|
      ensures multiset(trace[old(start)..]) == RecordUses(step) && InOrder(trace[old(start)..], step)
    {
      hide RecordUses, InOrder, LatestIn;
      NoneRecorded(record.cycle + SUBCYCLES_PER_INSN);
      step := record;
      record := EmptyRecord(record.cycle + SUBCYCLES_PER_INSN);
      start := |trace|;
      assert trace[start..] == [];
    }

    method StorePc(pc: Word)
      requires Valid()
      modifies this`record
      ensures Valid() && record == old(record).(pcAfter := pc)
    {
      hide RecordUses, InOrder;
      RecordPc(record, 0, pc, NO_INSN);
      InOrderPc(trace[start..], record, 0, pc, NO_INSN);
      record := record.(pcAfter := pc);
    }

    method Fetch(pc: Word, insn: Instruction)
      requires Valid()
      modifies this`record
      ensures Valid() && record == old(record).(pcBefore := pc, insn := insn)
    {
      hide RecordUses, InOrder;
      RecordPc(record, pc, 0, insn);
      InOrderPc(trace[start..], record, pc, 0, insn);
      record := record.(pcBefore := pc, insn := insn);
    }

    /** The first read of an instruction is rs1 and the second rs2; there is no third. */
    method LoadRegister(idx: nat, value: Word)
      requires Valid() && idx < REG_COUNT && record.rs2.None?
      modifies this
      ensures Valid() && start == old(start)
      ensures var sub := if old(record.rs1).None? then SUBCYCLE_RS1 else SUBCYCLE_RS2;
              trace == old(trace) + [Stamped(old(trace), record.cycle, Touch(RegAddr(idx), value, value, sub))]
      ensures var op := Some(ReadOp(RegAddr(idx), value, LastTs(old(trace), RegAddr(idx))));
              record == if old(record.rs1).None? then old(record).(rs1 := op) else old(record).(rs2 := op)
    {
      hide RegAddr, LastTs, RecordUses, LatestIn, InOrder;
      ghost var was, r := trace, record;
      if record.rs1.None? {
        var previous := TrackAccess(RegAddr(idx), SUBCYCLE_RS1, value, value);
        record := record.(rs1 := Some(ReadOp(RegAddr(idx), value, previous)));
      } else {
        var previous := TrackAccess(RegAddr(idx), SUBCYCLE_RS2, value, value);
        record := record.(rs2 := Some(ReadOp(RegAddr(idx), value, previous)));
      }
      ghost var op := ReadOp(RegAddr(idx), value, LastTs(was, RegAddr(idx)));
      if r.rs1.None? {
        WithRs1(r, op);
        InOrderRs1(was[start..], r, op);
      } else {
        WithRs2(r, op);
        InOrderRs2(was[start..], r, op);
      }
      TraceGrows(was, [trace[|was|]], start);
    }

    method StoreRegister(idx: nat, before: Word, after: Word)
      requires Valid() && idx < REG_COUNT && record.rd.None?
      modifies this
      ensures Valid() && start == old(start)
      ensures trace == old(trace) + [Stamped(old(trace), record.cycle, Touch(RegAddr(idx), before, after, SUBCYCLE_RD))]
      ensures record == old(record).(rd := Some(WriteOp(RegAddr(idx), before, after, LastTs(old(trace), RegAddr(idx)))))
    {
      hide RegAddr, LastTs, RecordUses, LatestIn, InOrder;
      ghost var was, r := trace, record;
      var previous := TrackAccess(RegAddr(idx), SUBCYCLE_RD, before, after);
      record := record.(rd := Some(WriteOp(RegAddr(idx), before, after, previous)));
      WithRd(r, record.rd.value);
      InOrderRd(was[start..], r, record.rd.value);
      TraceGrows(was, [trace[|was|]], start);
    }

    method StoreMemory(addr: WordAddr, before: Word, after: Word)
      requires Valid() && record.memoryOp.None?
      modifies this
      ensures Valid() && start == old(start)
      ensures trace == old(trace) + [Stamped(old(trace), record.cycle, Touch(addr, before, after, SUBCYCLE_MEM))]
      ensures record == old(record).(memoryOp := Some(WriteOp(addr, before, after, LastTs(old(trace), addr))))
    {
      hide LastTs, RecordUses, LatestIn, InOrder;
      ghost var was, r := trace, record;
      var previous := TrackAccess(addr, SUBCYCLE_MEM, before, after);
      record := record.(memoryOp := Some(WriteOp(addr, before, after, previous)));
      WithMemoryOp(r, record.memoryOp.value);
      InOrderMemoryOp(was[start..], r, record.memoryOp.value);
      TraceGrows(was, [trace[|was|]], start);
    }

    /** The part of `finalize` for one list of operations: each gets the cycle of the previous access. */
    method FinalizeOps(ops: seq<WriteOp>, subcycle: nat) returns (done: seq<WriteOp>)
      requires LatestIn(latestAccesses, trace)
      modifies this
      ensures LatestIn(latestAccesses, trace)
      ensures trace == Stamp(old(trace), record.cycle, Touches(ops, subcycle))
      ensures trace == old(trace) + OpUses(done, record.cycle + subcycle)
      ensures record == old(record) && start == old(start)
      ensures |done| == |ops|
      ensures forall i :: 0 <= i < |ops| ==>
                done[i].addr == ops[i].addr && done[i].before == ops[i].before && done[i].after == ops[i].after
    {
      hide LatestIn, Stamp, LastTs, RecordUses;
      done := [];
      ghost var was, touches := trace, Touches(ops, subcycle);
      StampNone(was, record.cycle);
      for i := 0 to |ops|
        invariant LatestIn(latestAccesses, trace)
        invariant record == old(record) && start == old(start) && |done| == i
        invariant trace == Stamp(was, record.cycle, touches[..i])
        invariant trace == was + OpUses(done, record.cycle + subcycle)
        invariant forall k :: 0 <= k < i ==>
                  done[k].addr == ops[k].addr && done[k].before == ops[k].before && done[k].after == ops[k].after
      {
        ghost var now := trace;
        var previous := TrackAccess(ops[i].addr, subcycle, ops[i].before, ops[i].after);
        StampSnoc(was, record.cycle, touches[..i], touches[i]);
        assert touches[..i + 1] == touches[..i] + [touches[i]];
        var op := ops[i].(previousCycle := previous);
        assert OpUses(done + [op], record.cycle + subcycle)
            == OpUses(done, record.cycle + subcycle) + [OpUse(op, record.cycle + subcycle)];
        done := done + [op];
      }
      assert touches[..|ops|] == touches;
    }

    method TrackSyscall(effects: SyscallEffects)
      requires Valid() && record.syscall.None?
      modifies this
      ensures Valid() && start == old(start)
      ensures trace == Stamp(Stamp(old(trace), record.cycle, Touches(effects.regOps, SUBCYCLE_RD)), record.cycle,
                             Touches(effects.memOps, SUBCYCLE_MEM))
      ensures record.syscall.Some? && record == old(record).(syscall := record.syscall)
    {
      hide RecordUses, LatestIn, Stamp, InOrder;
      ghost var was, r, cycle := trace, record, record.cycle;
      var regs := FinalizeOps(effects.regOps, SUBCYCLE_RD);
      var mems := FinalizeOps(effects.memOps, SUBCYCLE_MEM);
      record := record.(syscall := Some(SyscallWitness(mems, regs)));
      ghost var more := OpUses(regs, cycle + SUBCYCLE_RD) + OpUses(mems, cycle + SUBCYCLE_MEM);
      assert trace == was + more;
      WithSyscall(r, SyscallWitness(mems, regs));
      InOrderSyscall(was[start..], r, SyscallWitness(mems, regs));
      TraceGrows(was, more, start);
    }
  }

  lemma StampNone(trace: seq<Use>, cycle: nat)
    ensures Stamp(trace, cycle, []) == trace
  {
  }

  lemma {:induction false} StampSnoc(trace: seq<Use>, cycle: nat, touches: seq<Touch>, t: Touch)
    ensures Stamp(trace, cycle, touches + [t])
              == Stamp(trace, cycle, touches) + [Stamped(Stamp(trace, cycle, touches), cycle, t)]
    decreases |touches|
  {
    hide LastTs;
    if touches == [] {
      assert ([] + [t])[1..] == [];
      StampNone(trace + [Stamped(trace, cycle, t)], cycle);
    } else {
      assert (touches + [t])[1..] == touches[1..] + [t];
      StampSnoc(trace + [Stamped(trace, cycle, touches[0])], cycle, touches[1..], t);
    }
  }

  lemma {:induction false} StampConcat(trace: seq<Use>, cycle: nat, ts: seq<Touch>, us: seq<Touch>)
    ensures Stamp(trace, cycle, ts + us) == Stamp(Stamp(trace, cycle, ts), cycle, us)
    decreases |ts|
  {
    hide LastTs;
    if ts == [] {
      assert ts + us == us;
    } else {
      assert (ts + us)[1..] == ts[1..] + us;
      StampConcat(trace + [Stamped(trace, cycle, ts[0])], cycle, ts[1..], us);
    }
  }

  lemma StampOne(trace: seq<Use>, cycle: nat, t: Touch)
    ensures Stamp(trace, cycle, [t]) == trace + [Stamped(trace, cycle, t)]
  {
    StampNone(trace, cycle);
    StampSnoc(trace, cycle, [], t);
    assert [] + [t] == [t];
  }

  // ---------- the virtual machine ----------

  /** The outcome of an instruction: the specified machine and uses, or the specified trap. */
  ghost predicate Matches(e: Effect, trap: Option<TrapCause>, machine: Machine, before: seq<Use>, after: seq<Use>,
                          cycle: nat) {
    match e
    case Done(next, touches) => trap.None? && machine == next && after == Stamp(before, cycle, touches)
    case Trapped(cause) => trap == Some(cause)
  }

  ghost predicate SameStep(r: StepRecord, was: StepRecord) {
    r.cycle == was.cycle && r.pcBefore == was.pcBefore && r.insn == was.insn
  }

  /** A record holds a system call exactly when one was made, and then no writes of its own. */
  ghost predicate CallRecorded(r: StepRecord, call: Option<SyscallEffects>) {
    (r.syscall.Some? <==> call.Some?) && OneKind(r)
  }

  /** The record of one step of a run: its place in the run, its instruction, and its uses in the order of the trace. */
  ghost predicate RecordOf(r: StepRecord, env: Env, p: Program, before: Traced, after: Traced)
    requires |before.machine.registers| == REG_COUNT
  {
    && r.cycle == before.cycle && Fetch(p, before.machine.pc) == Some(r.insn)
    && r.pcBefore == WordStart(before.machine.pc) && r.pcAfter == after.machine.pc
    && before.trace <= after.trace
    && InOrder(after.trace[|before.trace|..], r)
    && multiset(after.trace[|before.trace|..]) == RecordUses(r)
    && CallRecorded(r, CallOf(env, r.insn, before.machine))
  }

  class VMState {
    const env: Env
    const program: Program
    const tracer: Tracer
    var pc: Word
    var memory: map<WordAddr, Word>
    var registers: seq<Word>
    var halted: bool

    ghost function M(): Machine
      reads this
    {
      Machine(pc, registers, memory, halted)
    }

    ghost function T(): Traced
      reads this, tracer
    {
      Traced(M(), tracer.record.cycle, tracer.trace)
    }

    ghost predicate Valid()
      reads this, tracer
    {
      tracer.Valid() && |registers| == REG_COUNT
    }

    /** The record of an instruction that has not done anything yet. */
    ghost predicate Fresh()
      reads this, tracer
    {
      && Valid() && tracer.record.rs1.None? && tracer.record.rs2.None? && tracer.record.rd.None?
      && tracer.record.memoryOp.None? && tracer.record.syscall.None?
    }

    constructor (env: Env, program: Program, image: map<WordAddr, Word>)
      ensures Fresh() && fresh(tracer) && this.env == env && this.program == program
      ensures M() == Machine(program.entry, seq(REG_COUNT, _ => 0), image, false)
      ensures tracer.record.cycle == SUBCYCLES_PER_INSN && tracer.trace == [] && tracer.start == 0
    {
      this.env, this.program, pc, memory, halted := env, program, program.entry, image, false;
      registers := seq(REG_COUNT, _ => 0);
      tracer := new Tracer();
    }

    method LoadRegister(idx: nat) returns (value: Word)
      requires Valid() && idx < REG_COUNT && tracer.record.rs2.None?
      modifies tracer
      ensures Valid() && value == registers[idx] && tracer.start == old(tracer.start)
      ensures var sub := if old(tracer.record.rs1).None? then SUBCYCLE_RS1 else SUBCYCLE_RS2;
              tracer.trace == Stamp(old(tracer.trace), tracer.record.cycle, [ReadReg(M(), idx, sub)])
      ensures var op := tracer.record;
              if old(tracer.record.rs1).None? then op.rs1.Some? && op == old(tracer.record).(rs1 := op.rs1)
              else op.rs2.Some? && op == old(tracer.record).(rs2 := op.rs2)
    {
      hide RegAddr, Tracer.Valid;
      StampOne(tracer.trace, tracer.record.cycle,
               ReadReg(M(), idx, if tracer.record.rs1.None? then SUBCYCLE_RS1 else SUBCYCLE_RS2));
      tracer.LoadRegister(idx, registers[idx]);
      value := registers[idx];
    }

    /** Stores to x0 do nothing; instructions never make one, they use the extra register. */
    method StoreRegister(idx: nat, after: Word)
      requires Valid() && idx < REG_COUNT && (idx != 0 ==> tracer.record.rd.None?)
      modifies tracer, this`registers
      ensures Valid() && tracer.start == old(tracer.start) && tracer.record.cycle == old(tracer.record.cycle)
      ensures idx == 0 ==>
                registers == old(registers) && tracer.trace == old(tracer.trace) && tracer.record == old(tracer.record)
      ensures idx != 0 ==>
                && registers == old(registers)[idx := after]
                && tracer.trace == Stamp(old(tracer.trace), tracer.record.cycle, [WriteReg(old(M()), idx, after)])
                && tracer.record.rd.Some? && tracer.record == old(tracer.record).(rd := tracer.record.rd)
    {
      hide RegAddr, Tracer.Valid;
      if idx != 0 {
        StampOne(tracer.trace, tracer.record.cycle, WriteReg(M(), idx, after));
        tracer.StoreRegister(idx, registers[idx], after);
        registers := registers[idx := after];
      }
    }

    method LoadMemory(addr: WordAddr) returns (value: Word)
      requires Valid() && tracer.record.memoryOp.None?
      modifies tracer
      ensures Valid() && value == M().PeekMemory(addr) && tracer.start == old(tracer.start)
      ensures tracer.trace == Stamp(old(tracer.trace), tracer.record.cycle, [WriteMem(M(), addr, value)])
      ensures tracer.record.memoryOp.Some? && tracer.record == old(tracer.record).(memoryOp := tracer.record.memoryOp)
    {
      hide Tracer.Valid;
      value := if addr in memory then memory[addr] else 0;
      StampOne(tracer.trace, tracer.record.cycle, WriteMem(M(), addr, value));
      tracer.StoreMemory(addr, value, value);
    }

    method StoreMemory(addr: WordAddr, after: Word)
      requires Valid() && tracer.record.memoryOp.None?
      modifies tracer, this`memory
      ensures Valid() && memory == old(memory)[addr := after] && tracer.start == old(tracer.start)
      ensures tracer.trace == Stamp(old(tracer.trace), tracer.record.cycle, [WriteMem(old(M()), addr, after)])
      ensures tracer.record.memoryOp.Some? && tracer.record == old(tracer.record).(memoryOp := tracer.record.memoryOp)
    {
      hide Tracer.Valid;
      var before := if addr in memory then memory[addr] else 0;
      StampOne(tracer.trace, tracer.record.cycle, WriteMem(M(), addr, after));
      tracer.StoreMemory(addr, before, after);
      memory := memory[addr := after];
    }

    /** The part of a compute instruction that reads: the operands, the result and the next pc. */
    method Operands(insn: Instruction) returns (newPc: Word, out: Word)
      requires Fresh() && Category(insn.kind).Compute?
      modifies tracer
      ensures Valid() && tracer.start == old(tracer.start) && SameStep(tracer.record, old(tracer.record)) &&
                tracer.record.rd.None? && tracer.record.syscall.None?
      ensures newPc == ComputePc(insn, M()) && out == ComputeOut(insn, M())
      ensures tracer.trace == Stamp(old(tracer.trace), tracer.record.cycle, ComputeInputs(insn, M()))
    {
      hide WrappingAdd, NextPc, JumpTarget, Stamp, Alu, RegAddr, ReadReg, WriteReg, Tracer.Valid, ComputePc, ComputeOut;
      ghost var t0, cycle := tracer.trace, tracer.record.cycle;
      newPc := NextPc(pc);
      ComputeParts(insn, M());
      StampNone(t0, cycle);
      if insn.kind.JAL? {
        newPc := WrappingAdd(pc, insn.imm);
        out := NextPc(pc);
      } else {
        var rs1 := LoadRegister(insn.rs1);
        if UsesImmediate(insn.kind) {
          if insn.kind.JALR? {
            newPc := JumpTarget(WrappingAdd(rs1, insn.imm));
            out := NextPc(pc);
          } else {
            out := Alu(insn.kind, rs1, insn.imm);
          }
        } else {
          var rs2 := LoadRegister(insn.rs2);
          out := Alu(insn.kind, rs1, rs2);
          StampConcat(t0, cycle, [ReadReg(M(), insn.rs1, SUBCYCLE_RS1)], [ReadReg(M(), insn.rs2, SUBCYCLE_RS2)]);
          assert [ReadReg(M(), insn.rs1, SUBCYCLE_RS1)] + [ReadReg(M(), insn.rs2, SUBCYCLE_RS2)]
              == ComputeInputs(insn, M());
        }
      }
    }

    method StepCompute(insn: Instruction) returns (trap: Option<TrapCause>)
      requires Fresh() && Category(insn.kind).Compute?
      modifies this`pc, this`registers, tracer
      ensures Valid() && tracer.start == old(tracer.start) && SameStep(tracer.record, old(tracer.record))
      ensures tracer.record.syscall.None?
      ensures ComputeMeans(insn, old(M()), Outcome(trap, M()))
      ensures Matches(ExecuteCompute(insn, old(M())), trap, M(), old(tracer.trace), tracer.trace, tracer.record.cycle)
    {
      hide Stamp, ReadReg, WriteReg, Tracer.Valid, ComputePc, ComputeOut, ComputeInputs, Aligned,
           ComputeMeans;
      ComputeOutcome(env, insn, M());
      ghost var m, t0, cycle := M(), tracer.trace, tracer.record.cycle;
      var newPc, out := Operands(insn);
      if !Aligned(newPc) {
        return Some(InstructionAddressMisaligned);
      }
      var rd := RdInternal(insn);
      StampConcat(t0, cycle, ComputeInputs(insn, m), [WriteReg(m, rd, out)]);
      StoreRegister(rd, out);
      pc := newPc;
      trap := None;
    }
  
    /** The first two register reads of an instruction. */
    method LoadTwo(first: nat, second: nat) returns (rs1: Word, rs2: Word)
      requires Fresh() && first < REG_COUNT && second < REG_COUNT
      modifies tracer
      ensures Valid() && tracer.start == old(tracer.start) && SameStep(tracer.record, old(tracer.record))
      ensures tracer.record.rd.None? && tracer.record.memoryOp.None? && rs1 == registers[first] &&
                rs2 == registers[second] && tracer.record.syscall.None?
      ensures tracer.trace == Stamp(old(tracer.trace), tracer.record.cycle,
                                    [ReadReg(M(), first, SUBCYCLE_RS1), ReadReg(M(), second, SUBCYCLE_RS2)])
    {
      hide Stamp, RegAddr, ReadReg, Tracer.Valid;
      ghost var t0, cycle := tracer.trace, tracer.record.cycle;
      rs1 := LoadRegister(first);
      rs2 := LoadRegister(second);
      StampConcat(t0, cycle, [ReadReg(M(), first, SUBCYCLE_RS1)], [ReadReg(M(), second, SUBCYCLE_RS2)]);
      assert [ReadReg(M(), first, SUBCYCLE_RS1)] + [ReadReg(M(), second, SUBCYCLE_RS2)]
          == [ReadReg(M(), first, SUBCYCLE_RS1), ReadReg(M(), second, SUBCYCLE_RS2)];
    }

    method StepBranch(insn: Instruction) returns (trap: Option<TrapCause>)
      requires Fresh()
      modifies this`pc, tracer
      ensures Valid() && tracer.start == old(tracer.start) && SameStep(tracer.record, old(tracer.record))
      ensures tracer.record.syscall.None?
      ensures IsBranch(insn.kind) ==> BranchMeans(insn, old(M()), Outcome(trap, M()))
      ensures Matches(ExecuteBranch(insn, old(M())), trap, M(), old(tracer.trace), tracer.trace, tracer.record.cycle)
    {
      hide WrappingAdd, NextPc, Taken, Stamp, ReadReg, Tracer.Valid, Aligned,
           BranchMeans;
      BranchOutcome(env, insn, M());
      var rs1, rs2 := LoadTwo(insn.rs1, insn.rs2);
      var newPc := if Taken(insn.kind, rs1, rs2) then WrappingAdd(pc, insn.imm) else NextPc(pc);
      if !Aligned(newPc) {
        return Some(InstructionAddressMisaligned);
      }
      pc := newPc;
      trap := None;
    }

    method StepLoad(insn: Instruction) returns (trap: Option<TrapCause>)
      requires Fresh()
      modifies this`pc, this`registers, tracer
      ensures Valid() && tracer.start == old(tracer.start) && SameStep(tracer.record, old(tracer.record))
      ensures tracer.record.syscall.None?
      ensures IsLoad(insn.kind) ==> LoadMeans(env.platform, insn, old(M()), Outcome(trap, M()))
      ensures Matches(ExecuteLoad(env, insn, old(M())), trap, M(), old(tracer.trace), tracer.trace, tracer.record.cycle)
    {
      hide WrappingAdd, NextPc, Waddr, LoadValue, Misaligned, Platform.CanRead, Stamp, ReadReg, WriteReg, WriteMem,
           Tracer.Valid, LoadMeans, IsLoad;
      LoadOutcome(env, insn, M());
      ghost var m, t0, cycle := M(), tracer.trace, tracer.record.cycle;
      var rs1 := LoadRegister(insn.rs1);
      var addr := WrappingAdd(rs1, insn.imm);
      if !env.platform.CanRead(addr) {
        return Some(LoadAccessFault(addr));
      }
      var data := LoadMemory(Waddr(addr));
      if Misaligned(insn.kind, addr) {
        return Some(LoadAddressMisaligned);
      }
      var out := LoadValue(insn.kind, data, addr);
      var rd := RdInternal(insn);
      ghost var a, t, w := ReadReg(m, insn.rs1, SUBCYCLE_RS1), WriteMem(m, Waddr(addr), data), WriteReg(m, rd, out);
      StoreRegister(rd, out);
      pc := NextPc(pc);
      trap := None;
      StampConcat(t0, cycle, [a], [t]);
      StampConcat(t0, cycle, [a] + [t], [w]);
      assert [a] + [t] + [w] == [a, t, w];
    }

    method StepStore(insn: Instruction) returns (trap: Option<TrapCause>)
      requires Fresh()
      modifies this`pc, this`memory, tracer
      ensures Valid() && tracer.start == old(tracer.start) && SameStep(tracer.record, old(tracer.record))
      ensures tracer.record.syscall.None?
      ensures IsStore(insn.kind) ==> StoreMeans(env.platform, insn, old(M()), Outcome(trap, M()))
      ensures Matches(ExecuteStore(env, insn, old(M())), trap, M(), old(tracer.trace), tracer.trace,
                      tracer.record.cycle)
    {
      hide WrappingAdd, NextPc, Waddr, StoreValue, Misaligned, Platform.CanWrite, Stamp, ReadReg, WriteMem,
           Tracer.Valid, StoreMeans, IsStore;
      StoreOutcome(env, insn, M());
      ghost var m, t0, cycle := M(), tracer.trace, tracer.record.cycle;
      var rs1, rs2 := LoadTwo(insn.rs1, insn.rs2);
      var addr := WrappingAdd(rs1, insn.imm);
      if !env.platform.CanWrite(addr) {
        return Some(StoreAccessFault);
      }
      var data := if Waddr(addr) in memory then memory[Waddr(addr)] else 0;
      if Misaligned(insn.kind, addr) {
        return Some(StoreAddressMisaligned(addr));
      }
      data := StoreValue(insn.kind, data, addr, rs2);
      ghost var a, b, t := ReadReg(m, insn.rs1, SUBCYCLE_RS1), ReadReg(m, insn.rs2, SUBCYCLE_RS2),
          WriteMem(m, Waddr(addr), data);
      StoreMemory(Waddr(addr), data);
      pc := NextPc(pc);
      trap := None;
      StampConcat(t0, cycle, [a, b], [t]);
      assert [a, b] + [t] == [a, b, t];
    }

    /** `apply_syscall`: memory, registers, pc, and then the tracer.  An index past the registers is a panic. */
    method ApplySyscallEffects(effects: SyscallEffects) returns (trap: Option<TrapCause>)
      requires Valid() && tracer.record.syscall.None?
      modifies this`pc, this`memory, this`registers, tracer
      ensures Valid() && tracer.start == old(tracer.start) && SameStep(tracer.record, old(tracer.record))
      ensures ApplyRegs(old(registers), effects.regOps).None? ==> trap == Some(Panic)
      ensures ApplyRegs(old(registers), effects.regOps).Some? ==>
                && trap == None && halted == old(halted) && tracer.record.syscall.Some?
                && tracer.record == old(tracer.record).(syscall := tracer.record.syscall)
                && memory == ApplyMem(old(memory), effects.memOps)
                && registers == ApplyRegs(old(registers), effects.regOps).value
                && pc == (if effects.nextPc.Some? then effects.nextPc.value else NextPc(old(pc)))
                && tracer.trace
                    == Stamp(Stamp(old(tracer.trace), tracer.record.cycle, Touches(effects.regOps, SUBCYCLE_RD)),
                                         tracer.record.cycle, Touches(effects.memOps, SUBCYCLE_MEM))
    {
      hide NextPc, Stamp, Tracer.Valid;
      for i := 0 to |effects.memOps|
        invariant ApplyMem(memory, effects.memOps[i..]) == ApplyMem(old(memory), effects.memOps)
        invariant registers == old(registers) && pc == old(pc) && halted == old(halted)
        invariant Valid() && tracer.trace == old(tracer.trace) && tracer.record == old(tracer.record) &&
                  tracer.start == old(tracer.start)
      {
        var op := effects.memOps[i];
        assert effects.memOps[i..][1..] == effects.memOps[i + 1..];
        memory := memory[op.addr := op.after];
      }
      for i := 0 to |effects.regOps|
        invariant ApplyRegs(registers, effects.regOps[i..]) == ApplyRegs(old(registers), effects.regOps)
        invariant memory == ApplyMem(old(memory), effects.memOps) && pc == old(pc) && halted == old(halted) &&
                  |registers| == REG_COUNT
        invariant Valid() && tracer.trace == old(tracer.trace) && tracer.record == old(tracer.record) &&
                  tracer.start == old(tracer.start)
      {
        var op := effects.regOps[i];
        assert effects.regOps[i..][1..] == effects.regOps[i + 1..];
        if RegisterIndex(op.addr) >= REG_COUNT {
          return Some(Panic);
        }
        registers := registers[RegisterIndex(op.addr) := op.after];
      }
      pc := if effects.nextPc.Some? then effects.nextPc.value else NextPc(pc);
      tracer.TrackSyscall(effects);
      trap := None;
    }

    /** An unknown system call that is ignored: one more register read, a write to the extra register, and a rewrite
        of the last stack word. */
    method IgnoreUnknownSyscall()
      requires Valid() && tracer.record.rs1.Some? && tracer.record.rs2.None? && tracer.record.rd.None? &&
                 tracer.record.memoryOp.None?
      modifies this`pc, this`registers, this`memory, tracer
      ensures Valid() && tracer.start == old(tracer.start) && SameStep(tracer.record, old(tracer.record)) &&
                halted == old(halted) && tracer.record.syscall == old(tracer.record.syscall)
      ensures registers == old(registers)[RD_NULL := 0] && pc == NextPc(old(pc))
      ensures var a := LastStackWord(env.platform); memory == old(memory)[a := old(M()).PeekMemory(a)]
      ensures var m, a := old(M()), LastStackWord(env.platform);
              tracer.trace == Stamp(old(tracer.trace), tracer.record.cycle,
                [ReadReg(m, REG_ARG0, SUBCYCLE_RS2), WriteReg(m, RD_NULL, 0), WriteMem(m, a, m.PeekMemory(a))])
    {
      hide NextPc, LastStackWord, Stamp, ReadReg, WriteReg, WriteMem, Tracer.Valid;
      ghost var m, t0, cycle := M(), tracer.trace, tracer.record.cycle;
      var arg0 := LoadRegister(REG_ARG0);
      StoreRegister(RD_NULL, 0);
      var addr := LastStackWord(env.platform);
      ghost var b, w, t := ReadReg(m, REG_ARG0, SUBCYCLE_RS2), WriteReg(m, RD_NULL, 0),
          WriteMem(m, addr, m.PeekMemory(addr));
      SameMemoryWrite(m, M(), addr);
      StoreMemory(addr, if addr in memory then memory[addr] else 0);
      pc := NextPc(pc);
      StampConcat(t0, cycle, [b], [w]);
      StampConcat(t0, cycle, [b] + [w], [t]);
      assert [b] + [w] + [t] == [b, w, t];
    }

    /** `ecall`: halt, a known system call, or an unknown one, which is ignored or traps. */
    method Ecall() returns (trap: Option<TrapCause>)
      requires Fresh()
      modifies this, tracer
      ensures Valid() && tracer.start == old(tracer.start) && SameStep(tracer.record, old(tracer.record))
      ensures trap.None? ==>
                CallRecorded(tracer.record, if old(registers[REG_ECALL]) == ECALL_HALT then None
                                            else env.syscall(old(registers[REG_ECALL]), old(M())))
      ensures EcallMeans(env, old(M()), Outcome(trap, M()))
      ensures Matches(ExecuteEcall(env, old(M())), trap, M(), old(tracer.trace), tracer.trace, tracer.record.cycle)
    {
      hide NextPc, LastStackWord, Stamp, ReadReg, WriteReg, WriteMem, Tracer.Valid, ApplyMem, ApplyRegs, Touches,
           EcallMeans;
      EcallOutcome(env, M());
      ghost var m, t0, cycle := M(), tracer.trace, tracer.record.cycle;
      ghost var a, b := ReadReg(m, REG_ECALL, SUBCYCLE_RS1), ReadReg(m, REG_ARG0, SUBCYCLE_RS2);
      var code := LoadRegister(REG_ECALL);
      if code == ECALL_HALT {
        var exitCode := LoadRegister(REG_ARG0);
        StampConcat(t0, cycle, [a], [b]);
        assert [a] + [b] == [a, b];
        pc, halted := 0, true;
        return None;
      }
      var result := env.syscall(code, Machine(pc, registers, memory, halted));
      if result.Some? {
        ghost var regs, mems := Touches(result.value.regOps, SUBCYCLE_RD), Touches(result.value.memOps, SUBCYCLE_MEM);
        trap := ApplySyscallEffects(result.value);
        StampConcat(t0, cycle, [a], regs);
        StampConcat(t0, cycle, [a] + regs, mems);
      } else if env.platform.unsafeEcallNop {
        var addr := LastStackWord(env.platform);
        ghost var rest := [b, WriteReg(m, RD_NULL, 0), WriteMem(m, addr, m.PeekMemory(addr))];
        IgnoreUnknownSyscall();
        trap := None;
        StampConcat(t0, cycle, [a], rest);
        assert [a] + rest == [a, b, WriteReg(m, RD_NULL, 0), WriteMem(m, addr, m.PeekMemory(addr))];
      } else {
        trap := Some(EcallError);
      }
    }

    /** `fetch`: records the pc and the instruction. */
    method FetchInstruction() returns (insn: Option<Instruction>)
      requires Fresh()
      modifies tracer`record
      ensures Fresh() && insn == Fetch(program, pc) && tracer.record.cycle == old(tracer.record.cycle)
      ensures insn.Some? ==> tracer.record.pcBefore == WordStart(pc) && tracer.record.insn == insn.value
    {
      hide WordStart, Fetch, Tracer.Valid;
      insn := Fetch(program, pc);
      if insn.Some? {
        tracer.Fetch(WordStart(pc), insn.value);
      }
    }

    /** `rv32im::step`: fetch, dispatch on the category, and record the next pc. */
    method ExecuteStep() returns (trap: Option<TrapCause>)
      requires Fresh()
      modifies this, tracer
      ensures Valid() && tracer.start == old(tracer.start) && tracer.record.cycle == old(tracer.record.cycle)
      ensures Fetch(program, old(pc)).None? ==> trap == Some(InstructionAccessFault)
      ensures Fetch(program, old(pc)).Some? ==>
                && Matches(Execute(env, Fetch(program, old(pc)).value, old(M())), trap, M(), old(tracer.trace),
                           tracer.trace, tracer.record.cycle)
                && Means(env, Fetch(program, old(pc)).value, old(M()), Outcome(trap, M()))
                && (trap.None? ==>
                      && tracer.record.insn == Fetch(program, old(pc)).value
                      && tracer.record.pcBefore == WordStart(old(pc)) && tracer.record.pcAfter == pc
                      && CallRecorded(tracer.record, CallOf(env, tracer.record.insn, old(M()))))
    {
      hide WordStart, Fetch, ExecuteCompute, ExecuteBranch, ExecuteLoad, ExecuteStore, ExecuteEcall, Stamp,
           Tracer.Valid, ComputeMeans, BranchMeans, LoadMeans, StoreMeans, EcallMeans;
      var fetched := FetchInstruction();
      if fetched.None? {
        return Some(InstructionAccessFault);
      }
      var insn := fetched.value;
      match Category(insn.kind) {
        case Compute => trap := StepCompute(insn);
        case Branch => trap := StepBranch(insn);
        case Load => trap := StepLoad(insn);
        case Store => trap := StepStore(insn);
        case System => trap := Ecall();
        case Invalid => trap := Some(IllegalInstruction(insn.raw));
      }
      if trap.None? {
        tracer.StorePc(pc);
      }
    }

    /** `VMState::step`: a completed instruction advances the tracer; one that jumps to itself without halting is an
        error.  The returned record is the record of the step. */
    method StepOnce() returns (trap: Option<TrapCause>, record: StepRecord)
      requires Fresh()
      modifies this, tracer
      ensures match Step(env, program, old(M()))
              case Trapped(cause) => trap == Some(cause)
              case Done(machine, touches) =>
                && trap.None? && Fresh() && M() == machine
                && tracer.record.cycle == old(tracer.record.cycle) + SUBCYCLES_PER_INSN
                && tracer.trace == Stamp(old(tracer.trace), old(tracer.record.cycle), touches)
                && (old(tracer.start) == |old(tracer.trace)| ==> RecordOf(record, env, program, old(T()), T()))
                && tracer.start == |tracer.trace|
    {
      hide WordStart, Fetch, Execute, Stamp, RecordUses, LatestIn, InOrder, CallOf, Means;
      ghost var before := T();
      record := tracer.record;
      trap := ExecuteStep();
      if trap.Some? {
        return;
      }
      record := tracer.Advance();
      if record.pcBefore == record.pcAfter && !halted {
        trap := Some(StuckInLoop);
      } else {
        StampExtends(before.trace, before.cycle, Step(env, program, before.machine).touches);
      }
    }

    /** `iter_until_halt`, stopped after at most `limit` steps or at the first error.  Everything that happened is a run
        of the specification, and the k-th record is the record of the k-th step. */
    method RunUntilHalt(limit: nat) returns (records: seq<StepRecord>, trap: Option<TrapCause>)
      requires Fresh() && tracer.trace == [] && tracer.start == 0 && tracer.record.cycle == SUBCYCLES_PER_INSN
      modifies this, tracer
      ensures |records| <= limit
      ensures After(env, program, Start(old(M())), |records|).Some?
      ensures forall k :: 0 <= k < |records| ==> StepRecorded(env, program, Start(old(M())), records, k)
      ensures trap.None? ==>
                After(env, program, Start(old(M())), |records|) == Some(T()) && (halted || |records| == limit)
      ensures trap.None? ==> multiset(tracer.trace) == AllUses(records)
      ensures trap.Some? ==>
                var last := After(env, program, Start(old(M())), |records|).value.machine;
                |last.registers| == REG_COUNT && Step(env, program, last) == Trapped(trap.value)
    {
      hide Step, Stamp, After, RecordUses, Tracer.Valid, InOrder, CallRecorded, CallOf, Fetch, WordStart;
      records, trap := [], None;
      ghost var v0 := Start(M());
      AfterNone(env, program, v0);
      while |records| < limit && !halted
        invariant |records| <= limit && trap.None? && Fresh() && tracer.start == |tracer.trace|
        invariant After(env, program, v0, |records|) == Some(T())
        invariant forall k :: 0 <= k < |records| ==> StepRecorded(env, program, v0, records, k)
        invariant multiset(tracer.trace) == AllUses(records)
        decreases limit - |records|
      {
        ghost var before, v, was := tracer.trace, T(), records;
        var record;
        trap, record := StepOnce();
        if trap.Some? {
          return;
        }
        AfterSnoc(env, program, v0, |records|, v);
        assert tracer.trace == before + tracer.trace[|before|..];
        assert (records + [record])[..|records|] == records;
        records := records + [record];
        forall k | 0 <= k < |records| ensures StepRecorded(env, program, v0, records, k) {
          assert k < |was| ==> StepRecorded(env, program, v0, was, k);
        }
      }
    }
  }

  /** Record k of a run is the record of its step k. */
  ghost predicate StepRecorded(env: Env, p: Program, v: Traced, records: seq<StepRecord>, k: nat) {
    && k < |records| && After(env, p, v, k).Some? && After(env, p, v, k + 1).Some?
    && |After(env, p, v, k).value.machine.registers| == REG_COUNT
    && RecordOf(records[k], env, p, After(env, p, v, k).value, After(env, p, v, k + 1).value)
  }

  /** The accesses of all records. */
  function AllUses(records: seq<StepRecord>): multiset<Use> {
    if records == [] then multiset{} else AllUses(records[..|records| - 1]) + RecordUses(records[|records| - 1])
  }

  lemma AfterNone(env: Env, p: Program, v: Traced)
    ensures After(env, p, v, 0) == Some(v)
  {
  }

  lemma StampExtends(trace: seq<Use>, cycle: nat, touches: seq<Touch>)
    ensures trace <= Stamp(trace, cycle, touches)
  {
  }

  lemma {:induction false} AfterSnoc(env: Env, p: Program, v: Traced, n: nat, last: Traced)
    requires After(env, p, v, n) == Some(last) && !last.machine.halted && |last.machine.registers| == REG_COUNT
    requires Step(env, p, last.machine).Done?
    ensures var r := Step(env, p, last.machine);
            After(env, p, v, n + 1)
                == Some(Traced(r.machine, last.cycle + SUBCYCLES_PER_INSN, Stamp(last.trace, last.cycle, r.touches)))
    decreases n
  {
    hide Step, Stamp;
    if n > 0 {
      var r := Step(env, p, v.machine);
      AfterSnoc(env, p, Traced(r.machine, v.cycle + SUBCYCLES_PER_INSN, Stamp(v.trace, v.cycle, r.touches)), n - 1,
                last);
    } else {
      AfterNone(env, p, Traced(Step(env, p, v.machine).machine, v.cycle + SUBCYCLES_PER_INSN,
                               Stamp(v.trace, v.cycle, Step(env, p, v.machine).touches)));
    }
  }

  // ---------- what the records of a run tell ----------

  lemma {:induction false} AfterCycle(env: Env, p: Program, v: Traced, k: nat)
    requires After(env, p, v, k).Some?
    ensures After(env, p, v, k).value.cycle == v.cycle + SUBCYCLES_PER_INSN * k
    decreases k
  {
    hide Step, Stamp;
    if k > 0 {
      var r := Step(env, p, v.machine);
      AfterCycle(env, p, Advanced(v, r.machine, r.touches), k - 1);
    }
  }

  /** The records of a run are numbered by their cycles, and each starts at the word where the one before ends. */
  lemma RecordsLink(env: Env, p: Program, m: Machine, records: seq<StepRecord>, k: nat)
    requires StepRecorded(env, p, Start(m), records, k)
    ensures records[k].cycle == SUBCYCLES_PER_INSN * (k + 1)
    ensures StepRecorded(env, p, Start(m), records, k + 1) ==>
              records[k + 1].pcBefore == WordStart(records[k].pcAfter)
  {
    hide After, WordStart, InOrder, RecordUses, CallRecorded, CallOf, Fetch;
    AfterCycle(env, p, Start(m), k);
  }

  lemma OpsDetermined(s: seq<WriteOp>, t: seq<WriteOp>, ts: nat)
    requires OpUses(s, ts) == OpUses(t, ts)
    ensures s == t
  {
    assert |s| == |t|;
    forall i | 0 <= i < |s| ensures s[i] == t[i] { assert OpUses(s, ts)[i] == OpUses(t, ts)[i]; }
  }

  lemma CallDetermined(r: SyscallWitness, s: SyscallWitness, cycle: nat)
    requires OpUses(r.regOps, cycle + SUBCYCLE_RD) == OpUses(s.regOps, cycle + SUBCYCLE_RD)
    requires OpUses(r.memOps, cycle + SUBCYCLE_MEM) == OpUses(s.memOps, cycle + SUBCYCLE_MEM)
    ensures r == s
  {
    hide OpUses;
    OpsDetermined(r.regOps, s.regOps, cycle + SUBCYCLE_RD);
    OpsDetermined(r.memOps, s.memOps, cycle + SUBCYCLE_MEM);
  }

  /** A step determines its record: no two records meet the specification. */
  lemma RecordDetermined(r: StepRecord, s: StepRecord, env: Env, p: Program, before: Traced, after: Traced)
    requires |before.machine.registers| == REG_COUNT
    requires RecordOf(r, env, p, before, after) && RecordOf(s, env, p, before, after)
    ensures r == s
  {
    hide AtTime, RecordUses, CallOf, Fetch, WordStart, OpUses;
    if r.syscall.Some? {
      assert RegisterUses(r) == OpUses(r.syscall.value.regOps, r.cycle + SUBCYCLE_RD);
      assert MemoryUses(r) == OpUses(r.syscall.value.memOps, r.cycle + SUBCYCLE_MEM);
      assert RegisterUses(s) == OpUses(s.syscall.value.regOps, s.cycle + SUBCYCLE_RD);
      assert MemoryUses(s) == OpUses(s.syscall.value.memOps, s.cycle + SUBCYCLE_MEM);
      CallDetermined(r.syscall.value, s.syscall.value, r.cycle);
    } else {
      assert RegisterUses(r) == WriteUse(r.rd, r.cycle + SUBCYCLE_RD);
      assert RegisterUses(s) == WriteUse(s.rd, s.cycle + SUBCYCLE_RD);
      assert MemoryUses(r) == WriteUse(r.memoryOp, r.cycle + SUBCYCLE_MEM);
      assert MemoryUses(s) == WriteUse(s.memoryOp, s.cycle + SUBCYCLE_MEM);
      WriteDetermined(r.rd, s.rd, r.cycle + SUBCYCLE_RD);
      WriteDetermined(r.memoryOp, s.memoryOp, r.cycle + SUBCYCLE_MEM);
    }
    ReadDetermined(r.rs1, s.rs1, r.cycle + SUBCYCLE_RS1);
    ReadDetermined(r.rs2, s.rs2, r.cycle + SUBCYCLE_RS2);
  }

  lemma ReadDetermined(r: Option<ReadOp>, s: Option<ReadOp>, ts: nat)
    requires ReadUse(r, ts) == ReadUse(s, ts)
    ensures r == s
  {
    assert |ReadUse(r, ts)| == |ReadUse(s, ts)|;
    if r.Some? { assert ReadUse(r, ts)[0] == ReadUse(s, ts)[0]; }
  }

  lemma WriteDetermined(r: Option<WriteOp>, s: Option<WriteOp>, ts: nat)
    requires WriteUse(r, ts) == WriteUse(s, ts)
    ensures r == s
  {
    assert |WriteUse(r, ts)| == |WriteUse(s, ts)|;
    if r.Some? { assert WriteUse(r, ts)[0] == WriteUse(s, ts)[0]; }
  }
}

/** From the records of an emulator run to a satisfied circuit with balanced records: the two halves of the memory
    argument meet in one theorem. */
module RunCircuits {
  import opened Wrappers
  import opened MemoryArgument
  import opened Words
  import opened Rv32im
  import opened Traces
  import opened EmulatorRuns
  import opened Emulator
  import opened ChipHandlers

  // ---------- the accesses of the records in the order in which the chips are assigned ----------

  function RecordList(r: StepRecord): seq<Use> {
    ReadUse(r.rs1, r.cycle + SUBCYCLE_RS1) + ReadUse(r.rs2, r.cycle + SUBCYCLE_RS2) + WriteUse(r.rd,
        r.cycle + SUBCYCLE_RD)
    + WriteUse(r.memoryOp, r.cycle + SUBCYCLE_MEM) + SyscallUses(r.syscall, r.cycle)
  }

  function RecordLists(records: seq<StepRecord>): seq<Use> {
    if records == [] then [] else RecordLists(records[..|records| - 1]) + RecordList(records[|records| - 1])
  }

  lemma RecordListUses(r: StepRecord)
    ensures multiset(RecordList(r)) == RecordUses(r)
  {
    hide ReadUse, WriteUse, SyscallUses;
  }

  lemma {:induction false} RecordListsUses(records: seq<StepRecord>)
    ensures multiset(RecordLists(records)) == AllUses(records)
  {
    hide RecordList, RecordUses;
    if records != [] {
      RecordListsUses(records[..|records| - 1]);
      RecordListUses(records[|records| - 1]);
    }
  }

  lemma RamUsesConcat(s: seq<Use>, t: seq<Use>)
    ensures RamUses(s + t) == RamUses(s) + RamUses(t)
  {
  }

  // ---------- assigning the records to the circuit ----------

  /** `ReadRS1`, `ReadRS2`: a read of a register. */
  method AssignRead(cb: CircuitBuilder<Word>, op: Option<ReadOp>, ts: nat)
    requires cb.Valid()
    modifies cb
    ensures cb.Valid() && cb.log == old(cb.log) + RamUses(ReadUse(op, ts))
  {
    hide IsRegAddr, RegisterIndex, Describes;
    if op.Some? {
      var x, next := op.value, ts;
      if IsRegAddr(x.addr) {
        next := cb.RegisterRead(RegisterIndex(x.addr), x.previousCycle, ts, x.value);
      } else {
        next := cb.MemoryRead(x.addr, x.previousCycle, ts, x.value);
      }
    }
  }

  /** `WriteRD`, `WriteMEM`: a write of a register or of a memory word; the read of a load writes back the same
      value. */
  method AssignWrite(cb: CircuitBuilder<Word>, x: WriteOp, ts: nat)
    requires cb.Valid()
    modifies cb
    ensures cb.Valid() && cb.log == old(cb.log) + RamUses([OpUse(x, ts)])
  {
    hide IsRegAddr, RegisterIndex, Describes;
    var next;
    if IsRegAddr(x.addr) {
      next := cb.RegisterWrite(RegisterIndex(x.addr), x.previousCycle, ts, x.before, x.after);
    } else {
      next := cb.MemoryWrite(x.addr, x.previousCycle, ts, x.before, x.after);
    }
  }

  method AssignWrites(cb: CircuitBuilder<Word>, ops: seq<WriteOp>, ts: nat)
    requires cb.Valid()
    modifies cb
    ensures cb.Valid() && cb.log == old(cb.log) + RamUses(OpUses(ops, ts))
  {
    hide RamUse, OpUse, Describes;
    for i := 0 to |ops|
      invariant cb.Valid() && cb.log == old(cb.log) + RamUses(OpUses(ops, ts)[..i])
    {
      AssignWrite(cb, ops[i], ts);
      assert OpUses(ops, ts)[..i + 1] == OpUses(ops, ts)[..i] + [OpUse(ops[i], ts)];
      RamUsesConcat(OpUses(ops, ts)[..i], [OpUse(ops[i], ts)]);
    }
    assert OpUses(ops, ts)[..|ops|] == OpUses(ops, ts);
  }

  method AssignOption(cb: CircuitBuilder<Word>, op: Option<WriteOp>, ts: nat)
    requires cb.Valid()
    modifies cb
    ensures cb.Valid() && cb.log == old(cb.log) + RamUses(WriteUse(op, ts))
  {
    hide RamUse, OpUse, Describes;
    if op.Some? {
      AssignWrite(cb, op.value, ts);
    }
  }

  method AssignSyscall(cb: CircuitBuilder<Word>, w: Option<SyscallWitness>, cycle: nat)
    requires cb.Valid()
    modifies cb
    ensures cb.Valid() && cb.log == old(cb.log) + RamUses(SyscallUses(w, cycle))
  {
    hide OpUses, RamUses, Describes;
    if w.Some? {
      AssignWrites(cb, w.value.regOps, cycle + SUBCYCLE_RD);
      AssignWrites(cb, w.value.memOps, cycle + SUBCYCLE_MEM);
      RamUsesConcat(OpUses(w.value.regOps, cycle + SUBCYCLE_RD), OpUses(w.value.memOps, cycle + SUBCYCLE_MEM));
    } else {
      NoRamUses();
    }
  }

  lemma RecordParts(r: StepRecord)
    ensures RamUses(RecordList(r))
              == RamUses(ReadUse(r.rs1, r.cycle + SUBCYCLE_RS1)) + RamUses(ReadUse(r.rs2, r.cycle + SUBCYCLE_RS2))
                                    + RamUses(WriteUse(r.rd, r.cycle + SUBCYCLE_RD)) + RamUses(WriteUse(r.memoryOp,
                                        r.cycle + SUBCYCLE_MEM))
                                    + RamUses(SyscallUses(r.syscall, r.cycle))
  {
    hide ReadUse, WriteUse, SyscallUses, RamUses;
    var a, b := ReadUse(r.rs1, r.cycle + SUBCYCLE_RS1), ReadUse(r.rs2, r.cycle + SUBCYCLE_RS2);
    var c, d := WriteUse(r.rd, r.cycle + SUBCYCLE_RD), WriteUse(r.memoryOp, r.cycle + SUBCYCLE_MEM);
    RamUsesConcat(a, b);
    RamUsesConcat(a + b, c);
    RamUsesConcat(a + b + c, d);
    RamUsesConcat(a + b + c + d, SyscallUses(r.syscall, r.cycle));
  }

  /** One row: the operations of one record, at the subcycles of its instruction. */
  method AssignRecord(cb: CircuitBuilder<Word>, r: StepRecord)
    requires cb.Valid()
    modifies cb
    ensures cb.Valid() && cb.log == old(cb.log) + RamUses(RecordList(r))
  {
    hide RecordList, ReadUse, WriteUse, SyscallUses, RamUses, Describes, CircuitBuilder<Word>.Valid;
    AssignRead(cb, r.rs1, r.cycle + SUBCYCLE_RS1);
    AssignRead(cb, r.rs2, r.cycle + SUBCYCLE_RS2);
    AssignOption(cb, r.rd, r.cycle + SUBCYCLE_RD);
    AssignOption(cb, r.memoryOp, r.cycle + SUBCYCLE_MEM);
    AssignSyscall(cb, r.syscall, r.cycle);
    RecordParts(r);
  }

  lemma NoRamUses()
    ensures RamUses([]) == []
  {
  }

  method AssignRecords(records: seq<StepRecord>) returns (cb: CircuitBuilder<Word>)
    ensures fresh(cb) && cb.Valid() && cb.log == RamUses(RecordLists(records))
  {
    hide RecordList, RamUses, Describes;
    cb := new CircuitBuilder<Word>();
    NoRamUses();
    for i := 0 to |records|
      invariant fresh(cb) && cb.Valid() && cb.log == RamUses(RecordLists(records[..i]))
    {
      AssignRecord(cb, records[i]);
      assert records[..i + 1][..i] == records[..i];
      RamUsesConcat(RecordLists(records[..i]), RecordList(records[i]));
    }
    assert records[..|records|] == records;
  }

  // ---------- the order of the assignment does not matter ----------

  lemma {:induction false} SameReadsAndWrites<A, V>(s: seq<Access<A, V>>, t: seq<Access<A, V>>)
    requires multiset(s) == multiset(t)
    ensures multiset(Reads(s)) == multiset(Reads(t)) && multiset(Writes(s)) == multiset(Writes(t))
    decreases |s|
  {
    hide *;
    if s == [] {
      assert |multiset(t)| == 0;
    } else {
      assert s[0] in multiset(t);
      var i :| 0 <= i < |t| && t[i] == s[0];
      Cancel(multiset(Without(s, 0)), multiset(Without(t, i)), s[0]);
      SameReadsAndWrites(Without(s, 0), Without(t, i));
      WithoutRecords(s, 0);
      WithoutRecords(t, i);
    }
  }

  /** A circuit assigned from the accesses of a chained trace, in any order, meets its order constraints, its records
      balance, and every operation reads the last value written. */
  lemma AnyOrderSatisfies(init: WordAddr -> Word, trace: seq<Use>, list: seq<Use>, addrs: seq<WordAddr>,
                          rs: seq<Record<RamAddr, Word>>,
                          ws: seq<Record<RamAddr, Word>>, lessThan: seq<(nat, nat)>)
    requires Chained(init, trace) && NoDuplicates(addrs) && forall i :: 0 <= i < |trace| ==> trace[i].addr in addrs
    requires multiset(list) == multiset(trace) && Describes(RamUses(list), rs, ws, lessThan)
    ensures Satisfied(lessThan)
    ensures var inits, finals := RamRecords(InitRecords(init, addrs)), RamRecords(FinalRecords(init, trace, addrs));
            && multiset(inits) + multiset(ws) == multiset(rs) + multiset(finals) && OnePerAddress(inits) &&
                OnePerAddress(finals)
            && forall i :: 0 <= i < |RamUses(list)| ==> ReadsLatest(inits, RamUses(list), i)
  {
    hide Chained, ReadsLatest, Reads, Writes, InitRecords, FinalRecords, RamRecords, OnePerAddress;
    var inits, finals := InitRecords(init, addrs), FinalRecords(init, trace, addrs);
    ChainedTraceBalances(init, trace, addrs);
    SameReadsAndWrites(list, trace);
    ForwardPath(list, trace);
    RenamedBalances(inits, list, finals);
    forall i | 0 <= i < |lessThan| ensures lessThan[i].0 < lessThan[i].1 {
      assert RamUses(list)[i].prevTs < RamUses(list)[i].ts;
    }
    forall i | 0 <= i < |RamUses(list)| ensures ReadsLatest(RamRecords(inits), RamUses(list), i) {
      SatisfiedCircuitIsConsistent(RamUses(list), rs, ws, lessThan, RamRecords(inits), RamRecords(finals), i);
    }
  }

  // ---------- one run, one circuit ----------

  /** The circuit of the first n steps of a run: constraints met, records balanced, and every read consistent. */
  ghost predicate Proves(env: Env, p: Program, m: Machine, n: nat, cb: CircuitBuilder<Word>)
    requires |m.registers| == REG_COUNT
    reads cb
  {
    && After(env, p, Start(m), n).Some? && Satisfied(cb.lessThan)
    && var init, trace := Contents(m), After(env, p, Start(m), n).value.trace;
       var inits, finals := RamRecords(InitRecords(init, AddressesOf(trace))),
           RamRecords(FinalRecords(init, trace, AddressesOf(trace)));
       && multiset(cb.log) == multiset(RamUses(trace))
       && multiset(inits) + multiset(cb.writeRecords) == multiset(cb.readRecords) + multiset(finals)
       && OnePerAddress(inits) && OnePerAddress(finals) && forall i :: 0 <= i < |cb.log| ==>
           ReadsLatest(inits, cb.log, i)
  }

  lemma {:induction false} SameRamUses(s: seq<Use>, t: seq<Use>)
    requires multiset(s) == multiset(t)
    ensures multiset(RamUses(s)) == multiset(RamUses(t))
    decreases |s|
  {
    hide RamUse, Without, RamUses;
    if s == [] {
      assert |multiset(t)| == 0;
      assert t == [];
    } else {
      assert s[0] in multiset(t);
      var i :| 0 <= i < |t| && t[i] == s[0];
      Cancel(multiset(Without(s, 0)), multiset(Without(t, i)), s[0]);
      SameRamUses(Without(s, 0), Without(t, i));
      RamUsesWithout(s, 0);
      RamUsesWithout(t, i);
    }
  }

  lemma RamUsesWithout(t: seq<Use>, i: nat)
    requires i < |t|
    ensures RamUses(Without(t, i)) == Without(RamUses(t), i)
  {
    hide RamUse;
  }

  /** Runs the machine and assigns its records: as long as the system calls that are made are legal, the circuit is
      satisfied and every operation of it reads the last value written. */
  method RunAndAssign(vm: VMState, limit: nat) returns (records: seq<StepRecord>, trap: Option<TrapCause>,
                                                        cb: CircuitBuilder<Word>)
    requires vm.Fresh() && vm.tracer.trace == [] && vm.tracer.start == 0 && vm.tracer.record.cycle == SUBCYCLES_PER_INSN
    requires RegistersOutside(vm.env.platform) && LegalCalls(vm.env, vm.program, Start(vm.M()), limit)
    modifies vm, vm.tracer
    ensures cb.Valid() && |old(vm.M()).registers| == REG_COUNT && |records| <= limit
    ensures forall k :: 0 <= k < |records| ==> StepRecorded(vm.env, vm.program, Start(old(vm.M())), records, k)
    ensures trap.None? ==> Proves(vm.env, vm.program, old(vm.M()), |records|, cb)
  {
    hide StepRecorded, VMState.Fresh, LegalCalls, RegistersOutside, After, RecordLists, AllUses, Describes;
    ghost var m, v0 := vm.M(), Start(vm.M());
    FreshRegisters(vm);
    records, trap := vm.RunUntilHalt(limit);
    cb := AssignRecords(records);
    if trap.None? {
      ghost var trace := vm.tracer.trace;
      RecordListsUses(records);
      CallsBefore(vm.env, vm.program, v0, |records|, limit);
      RunProves(vm.env, vm.program, m, |records|, RecordLists(records), cb);
    }
  }

  lemma FreshRegisters(vm: VMState)
    requires vm.Fresh()
    ensures |vm.M().registers| == REG_COUNT
  {
  }

  lemma CallsBefore(env: Env, p: Program, v: Traced, n: nat, limit: nat)
    requires LegalCalls(env, p, v, limit) && n <= limit
    ensures LegalCalls(env, p, v, n)
  {
  }

  lemma RunProves(env: Env, p: Program, m: Machine, n: nat, list: seq<Use>, cb: CircuitBuilder<Word>)
    requires RegistersOutside(env.platform) && |m.registers| == REG_COUNT && After(env, p, Start(m), n).Some?
    requires LegalCalls(env, p, Start(m), n) && cb.Valid() && cb.log == RamUses(list)
    requires multiset(list) == multiset(After(env, p, Start(m), n).value.trace)
    ensures Proves(env, p, m, n, cb)
  {
    hide RegistersOutside, After, LegalCalls, Chained, Describes, ReadsLatest, Satisfied, Balanced, RamUses,
         RamRecords, OnePerAddress;
    EveryRunBalances(env, p, m, n);
    var trace := After(env, p, Start(m), n).value.trace;
    SameRamUses(list, trace);
    AnyOrderSatisfies(Contents(m), trace, list, AddressesOf(trace), cb.readRecords, cb.writeRecords, cb.lessThan);
  }
}

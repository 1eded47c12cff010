/** Every step of the emulator uses addresses legally, keeps x0 zero and the pc aligned, and so every run yields a
    chained trace that balances. */
module EmulatorRuns {
  import opened Wrappers
  import opened MemoryArgument
  import opened Words
  import opened Rv32im
  import opened Traces

  // ---------- assumptions on the environment ----------

  /** Readable and writable memory lies outside the addresses of the registers. */
  ghost predicate RegistersOutside(p: Platform) {
    && (forall a: Word :: p.CanWrite(a) ==> !IsRegAddr(Waddr(a)))
    && (p.unsafeEcallNop ==> !IsRegAddr(LastStackWord(p)))
  }

  ghost predicate DistinctOps(ops: seq<WriteOp>) {
    forall i, j :: 0 <= i < j < |ops| ==> ops[i].addr != ops[j].addr
  }

  /** A system call reports each register and each word once, with its current contents. */
  ghost predicate ValidEffects(e: SyscallEffects, m: Machine)
    requires |m.registers| == REG_COUNT
  {
    && DistinctOps(e.regOps) && DistinctOps(e.memOps) && OpsApart(e)
    && (forall i :: 0 <= i < |e.regOps| ==> e.regOps[i].before == Current(m, e.regOps[i].addr))
    && (forall i :: 0 <= i < |e.memOps| ==> e.memOps[i].before == Current(m, e.memOps[i].addr))
  }

  /** Register operations lie in the addresses of the registers, and memory operations outside of them. */
  ghost predicate OpsApart(e: SyscallEffects) {
    && (forall i :: 0 <= i < |e.regOps| ==> IsRegAddr(e.regOps[i].addr))
    && (forall i :: 0 <= i < |e.memOps| ==> !IsRegAddr(e.memOps[i].addr))
  }

  /** The effects of the system call that an instruction makes, if it makes a known one. */
  function CallOf(env: Env, insn: Instruction, m: Machine): Option<SyscallEffects>
    requires |m.registers| == REG_COUNT
  {
    if Category(insn.kind).System? && m.registers[REG_ECALL] != ECALL_HALT then env.syscall(m.registers[REG_ECALL], m)
        else None
  }

  // ---------- one step ----------

  /** The same contents at every address. */
  ghost predicate SameContents(m: Machine, n: Machine)
    requires |m.registers| == |n.registers| == REG_COUNT
  {
    forall a: WordAddr :: Current(m, a) == Current(n, a)
  }

  lemma ContentsFrom(m: Machine, n: Machine)
    requires |m.registers| == |n.registers| == REG_COUNT && m.registers == n.registers
    requires forall a: WordAddr :: m.PeekMemory(a) == n.PeekMemory(a)
    ensures SameContents(m, n)
  {
  }

  ghost predicate LegalStep(m: Machine, next: Machine, touches: seq<Touch>)
    requires |m.registers| == |next.registers| == REG_COUNT
  {
    LegalOrder(touches) && LegalValues(m, touches) && SameContents(Replay(m, touches), next)
  }

  lemma NextNumber(pc: Word)
    ensures Number(NextPc(pc)) == (Number(pc) + 4) % TWO32
  {
    hide Number, Wrapped;
    WrappedNumber(Number(pc) + 4);
  }

  lemma NextMultiple(x: nat)
    requires x % 4 == 0
    ensures (x + 4) % TWO32 % 4 == 0
  {
    var q := (x + 4) / TWO32;
    assert x + 4 == TWO32 * q + (x + 4) % TWO32;
  }

  lemma NextAligned(pc: Word)
    requires Aligned(pc)
    ensures Aligned(NextPc(pc))
  {
    hide Number, Wrapped, Aligned, And, NextPc;
    AlignedNumber(pc);
    AlignedNumber(NextPc(pc));
    NextNumber(pc);
    NextMultiple(Number(pc));
  }

  /** A read of a register starts from its contents and changes nothing. */
  ghost predicate NoChange(m: Machine, t: Touch)
    requires |m.registers| == REG_COUNT
  {
    t.before == Current(m, t.addr) && Touched(m, t) == m
  }

  lemma ReadRegister(m: Machine, idx: nat, sub: nat)
    requires idx < REG_COUNT == |m.registers|
    ensures NoChange(m, ReadReg(m, idx, sub)) && ReadReg(m, idx, sub).sub == sub && IsRegAddr(ReadReg(m, idx, sub).addr)
  {
    RegAddrIs(idx);
    assert m.registers[idx := m.registers[idx]] == m.registers;
  }

  lemma WriteRegister(m: Machine, idx: nat, value: Word)
    requires idx < REG_COUNT == |m.registers|
    ensures var w := WriteReg(m, idx, value);
            && w.before == Current(m, w.addr) && w.sub == SUBCYCLE_RD && IsRegAddr(w.addr)
            && Touched(m, w) == m.(registers := m.registers[idx := value])
  {
    RegAddrIs(idx);
  }

  lemma WriteMemory(m: Machine, a: WordAddr, value: Word)
    requires |m.registers| == REG_COUNT && !IsRegAddr(a)
    ensures var w := WriteMem(m, a, value);
            && w.before == Current(m, w.addr) && w.sub == SUBCYCLE_MEM && w.addr == a
            && Touched(m, w) == m.(memory := m.memory[a := value])
  {
  }

  lemma Unfold(m: Machine, t: Touch, rest: seq<Touch>)
    requires |m.registers| == REG_COUNT
    ensures LegalValues(m, [t] + rest) <==> t.before == Current(m, t.addr) && LegalValues(Touched(m, t), rest)
    ensures Replay(m, [t] + rest) == Replay(Touched(m, t), rest)
  {
    assert ([t] + rest)[1..] == rest;
  }

  lemma OneTouch(m: Machine, t: Touch)
    requires |m.registers| == REG_COUNT
    ensures LegalValues(m, [t]) <==> t.before == Current(m, t.addr)
    ensures Replay(m, [t]) == Touched(m, t)
  {
    Unfold(m, t, []);
    assert [t] + [] == [t];
  }

  /** Reads in front of other uses do not matter. */
  lemma {:induction false} ReadsFirst(m: Machine, rs: seq<Touch>, rest: seq<Touch>)
    requires |m.registers| == REG_COUNT && forall i :: 0 <= i < |rs| ==> NoChange(m, rs[i])
    ensures LegalValues(m, rs + rest) <==> LegalValues(m, rest)
    ensures Replay(m, rs + rest) == Replay(m, rest)
    decreases |rs|
  {
    hide Current, Touched, LegalValues, Replay;
    if rs == [] {
      assert rs + rest == rest;
    } else {
      assert NoChange(m, rs[0]);
      assert rs + rest == [rs[0]] + (rs[1..] + rest);
      Unfold(m, rs[0], rs[1..] + rest);
      forall i | 0 <= i < |rs[1..]| ensures NoChange(m, rs[1..][i]) { assert rs[1..][i] == rs[i + 1]; }
      ReadsFirst(m, rs[1..], rest);
    }
  }

  lemma ReadsOnly(m: Machine, rs: seq<Touch>)
    requires |m.registers| == REG_COUNT && forall i :: 0 <= i < |rs| ==> NoChange(m, rs[i])
    ensures LegalValues(m, rs) && Replay(m, rs) == m
  {
    ReadsFirst(m, rs, []);
    assert rs + [] == rs;
  }

  lemma IncreasingOrder(touches: seq<Touch>)
    requires forall i :: 0 <= i < |touches| ==> touches[i].sub < SUBCYCLES_PER_INSN
    requires forall i, j :: 0 <= i < j < |touches| ==> touches[i].sub < touches[j].sub
    ensures LegalOrder(touches)
  {
  }

  lemma ComputeLegal(insn: Instruction, m: Machine)
    requires |m.registers| == REG_COUNT && Category(insn.kind).Compute? && ExecuteCompute(insn, m).Done?
    ensures var r := ExecuteCompute(insn, m); |r.machine.registers| == REG_COUNT && LegalStep(m, r.machine, r.touches)
  {
    hide ComputePc, ComputeOut, Aligned, IsRegAddr, RegAddr, RegisterIndex, Current, LegalValues, Replay, ReadReg,
         WriteReg, NoChange, Touched, LegalOrder, SameContents;
    var r, rd := ExecuteCompute(insn, m), RdInternal(insn);
    var w := WriteReg(m, rd, r.machine.registers[rd]);
    var a, b := ReadReg(m, insn.rs1, SUBCYCLE_RS1), ReadReg(m, insn.rs2, SUBCYCLE_RS2);
    ReadRegister(m, insn.rs1, SUBCYCLE_RS1);
    ReadRegister(m, insn.rs2, SUBCYCLE_RS2);
    WriteRegister(m, rd, r.machine.registers[rd]);
    var rs := if insn.kind.JAL? then [] else if UsesImmediate(insn.kind) then [a] else [a, b];
    assert r.touches == rs + [w];
    ReadsFirst(m, rs, [w]);
    OneTouch(m, w);
    IncreasingOrder(r.touches);
    ContentsFrom(Touched(m, w), r.machine);
  }

  lemma BranchLegal(insn: Instruction, m: Machine)
    requires |m.registers| == REG_COUNT && ExecuteBranch(insn, m).Done?
    ensures var r := ExecuteBranch(insn, m); |r.machine.registers| == REG_COUNT && LegalStep(m, r.machine, r.touches)
  {
    hide IsRegAddr, Current, LegalValues, Replay, ReadReg, NoChange, LegalOrder, SameContents, BranchPc, Aligned, And;
    var r := ExecuteBranch(insn, m);
    ReadRegister(m, insn.rs1, SUBCYCLE_RS1);
    ReadRegister(m, insn.rs2, SUBCYCLE_RS2);
    ReadsOnly(m, r.touches);
    IncreasingOrder(r.touches);
    ContentsFrom(m, r.machine);
  }

  lemma CanReadIs(p: Platform, a: Word)
    ensures p.CanRead(a) == p.CanWrite(a)
  {
  }

  lemma LoadTouches(m: Machine, rs1: nat, rd: nat, wa: WordAddr, out: Word)
    requires |m.registers| == REG_COUNT && rs1 < REG_COUNT && rd < REG_COUNT && !IsRegAddr(wa)
    ensures LegalStep(m, m.(registers := m.registers[rd := out]),
                      [ReadReg(m, rs1, SUBCYCLE_RS1)] + ([WriteMem(m, wa, m.PeekMemory(wa))] + [WriteReg(m, rd, out)]))
  {
    hide IsRegAddr, Current, LegalValues, Replay, ReadReg, WriteReg, WriteMem, NoChange, Touched, LegalOrder,
         SameContents;
    var data := m.PeekMemory(wa);
    var a, t, w := ReadReg(m, rs1, SUBCYCLE_RS1), WriteMem(m, wa, data), WriteReg(m, rd, out);
    ReadRegister(m, rs1, SUBCYCLE_RS1);
    WriteMemory(m, wa, data);
    WriteRegister(m, rd, out);
    var n := Touched(m, t);
    SameWrite(m, n, rd, out);
    WriteRegister(n, rd, out);
    OneTouch(n, w);
    Unfold(m, t, [w]);
    assert forall i :: 0 <= i < |[a]| ==> NoChange(m, [a][i]);
    ReadsFirst(m, [a], [t] + [w]);
    LoadOrder(a, t, w);
    ContentsFrom(Touched(n, w), m.(registers := m.registers[rd := out]));
  }

  lemma LoadLegal(env: Env, insn: Instruction, m: Machine)
    requires |m.registers| == REG_COUNT && RegistersOutside(env.platform) && ExecuteLoad(env, insn, m).Done?
    ensures var r := ExecuteLoad(env, insn, m); |r.machine.registers| == REG_COUNT && LegalStep(m, r.machine, r.touches)
  {
    hide Address, Platform.CanRead, Platform.CanWrite, Aligned, NextPc;
    CanReadIs(env.platform, Address(insn, m));
    hide LoadValue, IsRegAddr, LegalValues, Replay, ReadReg, WriteReg, WriteMem, LegalOrder, Waddr, Misaligned;
    var r, rd, wa := ExecuteLoad(env, insn, m), RdInternal(insn), Waddr(Address(insn, m));
    assert env.platform.CanWrite(Address(insn, m));
    var out := r.machine.registers[rd];
    LoadTouches(m, insn.rs1, rd, wa, out);
    assert r.touches
        == [ReadReg(m, insn.rs1, SUBCYCLE_RS1)] + ([WriteMem(m, wa, m.PeekMemory(wa))] + [WriteReg(m, rd, out)]);
    ContentsFrom(m.(registers := m.registers[rd := out]), r.machine);
  }

  lemma SameWrite(m: Machine, n: Machine, idx: nat, value: Word)
    requires idx < REG_COUNT == |m.registers| && n.registers == m.registers
    ensures WriteReg(m, idx, value) == WriteReg(n, idx, value)
  {
  }

  lemma LoadOrder(a: Touch, t: Touch, w: Touch)
    requires a.sub == SUBCYCLE_RS1 && t.sub == SUBCYCLE_MEM && w.sub == SUBCYCLE_RD && t.addr != w.addr
    ensures LegalOrder([a] + ([t] + [w]))
  {
  }

  lemma StoreLegal(env: Env, insn: Instruction, m: Machine)
    requires |m.registers| == REG_COUNT && RegistersOutside(env.platform) && ExecuteStore(env, insn, m).Done?
    ensures var r := ExecuteStore(env, insn, m);
            |r.machine.registers| == REG_COUNT && LegalStep(m, r.machine, r.touches)
  {
    hide Address, Platform.CanWrite, Aligned, NextPc;
    hide StoreValue, IsRegAddr, Current, LegalValues, Replay, ReadReg, WriteMem, NoChange, Touched, LegalOrder,
         SameContents, Waddr, Misaligned;
    var r, wa := ExecuteStore(env, insn, m), Waddr(Address(insn, m));
    assert env.platform.CanWrite(Address(insn, m));
    var data := StoreValue(insn.kind, m.PeekMemory(wa), Address(insn, m), m.registers[insn.rs2]);
    var a, b, t := ReadReg(m, insn.rs1, SUBCYCLE_RS1), ReadReg(m, insn.rs2, SUBCYCLE_RS2), WriteMem(m, wa, data);
    ReadRegister(m, insn.rs1, SUBCYCLE_RS1);
    ReadRegister(m, insn.rs2, SUBCYCLE_RS2);
    WriteMemory(m, wa, data);
    assert r.touches == [a, b] + [t];
    OneTouch(m, t);
    assert forall i :: 0 <= i < |[a, b]| ==> NoChange(m, [a, b][i]);
    ReadsFirst(m, [a, b], [t]);
    IncreasingOrder(r.touches);
    ContentsFrom(Touched(m, t), r.machine);
  }

  // ---------- system calls ----------

  /** Uses of distinct addresses start from the current contents, whatever came before at other addresses. */
  lemma {:induction false} DistinctLegal(m: Machine, ops: seq<WriteOp>, sub: nat)
    requires |m.registers| == REG_COUNT && DistinctOps(ops)
    requires forall i :: 0 <= i < |ops| ==> ops[i].before == Current(m, ops[i].addr)
    ensures LegalValues(m, Touches(ops, sub))
    decreases |ops|
  {
    hide Current, Touched;
    if ops != [] {
      var t, rest := Touches(ops, sub)[0], ops[1..];
      forall i | 0 <= i < |rest| ensures rest[i].before == Current(Touched(m, t), rest[i].addr) {
        assert rest[i] == ops[i + 1];
        TouchedCurrent(m, t, rest[i].addr);
      }
      DistinctLegal(Touched(m, t), rest, sub);
      assert Touches(ops, sub)[1..] == Touches(rest, sub);
    }
  }

  lemma {:induction false} ReplayRegs(m: Machine, ops: seq<WriteOp>, sub: nat)
    requires |m.registers| == REG_COUNT && forall i :: 0 <= i < |ops| ==> IsRegAddr(ops[i].addr)
    ensures ApplyRegs(m.registers, ops).Some?
    ensures Replay(m, Touches(ops, sub)) == m.(registers := ApplyRegs(m.registers, ops).value)
    decreases |ops|
  {
    if ops != [] {
      ReplayRegs(Touched(m, Touches(ops, sub)[0]), ops[1..], sub);
      assert Touches(ops, sub)[1..] == Touches(ops[1..], sub);
    }
  }

  lemma {:induction false} ReplayMem(m: Machine, ops: seq<WriteOp>, sub: nat)
    requires |m.registers| == REG_COUNT && forall i :: 0 <= i < |ops| ==> !IsRegAddr(ops[i].addr)
    ensures Replay(m, Touches(ops, sub)) == m.(memory := ApplyMem(m.memory, ops))
    decreases |ops|
  {
    if ops != [] {
      ReplayMem(Touched(m, Touches(ops, sub)[0]), ops[1..], sub);
      assert Touches(ops, sub)[1..] == Touches(ops[1..], sub);
    }
  }

  lemma {:induction false} LegalConcat(m: Machine, ts: seq<Touch>, us: seq<Touch>)
    requires |m.registers| == REG_COUNT
    ensures Replay(m, ts + us) == Replay(Replay(m, ts), us)
    ensures LegalValues(m, ts + us) <==> LegalValues(m, ts) && LegalValues(Replay(m, ts), us)
    decreases |ts|
  {
    hide Current, Touched;
    if ts == [] {
      assert ts + us == us;
    } else {
      assert (ts + us)[1..] == ts[1..] + us;
      LegalConcat(Touched(m, ts[0]), ts[1..], us);
    }
  }

  lemma SyscallOrder(e: SyscallEffects, m: Machine)
    requires |m.registers| == REG_COUNT && ValidEffects(e, m)
    ensures LegalOrder([ReadReg(m, REG_ECALL, SUBCYCLE_RS1)] + Touches(e.regOps, SUBCYCLE_RD) + Touches(e.memOps,
              SUBCYCLE_MEM))
  {
    hide Current;
    RegAddrIs(REG_ECALL);
  }

  /** A call whose operations lie where they belong is applied as its uses say; it is legal exactly when they are. */
  lemma ApartCall(e: SyscallEffects, m: Machine)
    requires |m.registers| == REG_COUNT && OpsApart(e)
    ensures ApplySyscall(e, m).Done?
    ensures var r := ApplySyscall(e, m);
            LegalStep(m, r.machine, r.touches) <==> LegalOrder(r.touches) && LegalValues(m, r.touches)
  {
    hide IsRegAddr, RegAddr, LegalValues, Replay, LegalOrder, ApplyMem, ApplyRegs, Touches, ReadReg, NoChange, Touched,
         SameContents;
    var a, regs, mems := ReadReg(m, REG_ECALL, SUBCYCLE_RS1), Touches(e.regOps, SUBCYCLE_RD),
        Touches(e.memOps, SUBCYCLE_MEM);
    ReadRegister(m, REG_ECALL, SUBCYCLE_RS1);
    ReplayRegs(m, e.regOps, SUBCYCLE_RD);
    ReplayMem(Replay(m, regs), e.memOps, SUBCYCLE_MEM);
    assert forall i :: 0 <= i < |[a]| ==> NoChange(m, [a][i]);
    ReadsFirst(m, [a], regs + mems);
    assert [a] + (regs + mems) == [a] + regs + mems;
    LegalConcat(m, regs, mems);
    ContentsFrom(Replay(m, [a] + regs + mems), ApplySyscall(e, m).machine);
  }

  /** Distinct operations that start from the current contents are legal. */
  lemma SyscallLegal(e: SyscallEffects, m: Machine)
    requires |m.registers| == REG_COUNT && ValidEffects(e, m)
    ensures ApplySyscall(e, m).Done?
    ensures var r := ApplySyscall(e, m); LegalStep(m, r.machine, r.touches)
  {
    hide IsRegAddr, RegAddr, LegalValues, Replay, LegalOrder, ApplyMem, ApplyRegs, Touches, ReadReg, NoChange, Touched,
         LegalStep;
    var a, regs, mems := ReadReg(m, REG_ECALL, SUBCYCLE_RS1), Touches(e.regOps, SUBCYCLE_RD),
        Touches(e.memOps, SUBCYCLE_MEM);
    SyscallOrder(e, m);
    ReadRegister(m, REG_ECALL, SUBCYCLE_RS1);
    DistinctLegal(m, e.regOps, SUBCYCLE_RD);
    ReplayRegs(m, e.regOps, SUBCYCLE_RD);
    var n := Replay(m, regs);
    forall i | 0 <= i < |e.memOps| ensures e.memOps[i].before == Current(n, e.memOps[i].addr) {}
    DistinctLegal(n, e.memOps, SUBCYCLE_MEM);
    assert forall i :: 0 <= i < |[a]| ==> NoChange(m, [a][i]);
    ReadsFirst(m, [a], regs + mems);
    assert [a] + (regs + mems) == [a] + regs + mems;
    LegalConcat(m, regs, mems);
    ApartCall(e, m);
  }

  lemma IgnoredLegal(env: Env, m: Machine)
    requires |m.registers| == REG_COUNT && RegistersOutside(env.platform) && env.platform.unsafeEcallNop
    ensures var r := IgnoreSyscall(env, m);
            r.Done? && |r.machine.registers| == REG_COUNT && LegalStep(m, r.machine, r.touches)
  {
    hide LastStackWord, Platform.CanWrite, Aligned;
    hide IsRegAddr, Current, LegalValues, Replay, ReadReg, WriteReg, WriteMem, NoChange, Touched, LegalOrder,
         SameContents, Waddr;
    var r, addr := IgnoreSyscall(env, m), LastStackWord(env.platform);
    var a, b, w := ReadReg(m, REG_ECALL, SUBCYCLE_RS1), ReadReg(m, REG_ARG0, SUBCYCLE_RS2), WriteReg(m, RD_NULL, 0);
    var t := WriteMem(m, addr, m.PeekMemory(addr));
    ReadRegister(m, REG_ECALL, SUBCYCLE_RS1);
    ReadRegister(m, REG_ARG0, SUBCYCLE_RS2);
    WriteRegister(m, RD_NULL, 0);
    var n := Touched(m, w);
    SameMemoryWrite(m, n, addr);
    WriteMemory(n, addr, m.PeekMemory(addr));
    assert r.touches == [a, b] + ([w] + [t]);
    OneTouch(n, t);
    Unfold(m, w, [t]);
    assert forall i :: 0 <= i < |[a, b]| ==> NoChange(m, [a, b][i]);
    ReadsFirst(m, [a, b], [w] + [t]);
    IncreasingOrder(r.touches);
    ContentsFrom(Touched(n, t), r.machine);
  }

  lemma SameMemoryWrite(m: Machine, n: Machine, a: WordAddr)
    requires n.memory == m.memory
    ensures WriteMem(m, a, m.PeekMemory(a)) == WriteMem(n, a, m.PeekMemory(a))
    ensures WriteMem(m, a, m.PeekMemory(a)).sub == SUBCYCLE_MEM
  {
  }

  lemma HaltLegal(m: Machine)
    requires |m.registers| == REG_COUNT
    ensures var touches := [ReadReg(m, REG_ECALL, SUBCYCLE_RS1), ReadReg(m, REG_ARG0, SUBCYCLE_RS2)];
            LegalStep(m, m.(pc := 0, halted := true), touches)
  {
    hide IsRegAddr, Current, LegalValues, Replay, ReadReg, NoChange, LegalOrder, SameContents;
    var touches := [ReadReg(m, REG_ECALL, SUBCYCLE_RS1), ReadReg(m, REG_ARG0, SUBCYCLE_RS2)];
    ReadRegister(m, REG_ECALL, SUBCYCLE_RS1);
    ReadRegister(m, REG_ARG0, SUBCYCLE_RS2);
    ReadsOnly(m, touches);
    IncreasingOrder(touches);
    ContentsFrom(m, m.(pc := 0, halted := true));
  }

  /** The call of an instruction, if it makes one, uses its addresses legally. */
  ghost predicate LegalCall(env: Env, insn: Instruction, m: Machine)
    requires |m.registers| == REG_COUNT
  {
    match CallOf(env, insn, m)
    case None => true
    case Some(e) =>
      var r := ApplySyscall(e, m);
      r.Done? ==> |r.machine.registers| == REG_COUNT && LegalStep(m, r.machine, r.touches)
  }

  /** Every completed instruction uses its addresses legally, except for a system call that does not. */
  lemma ExecuteLegal(env: Env, insn: Instruction, m: Machine)
    requires |m.registers| == REG_COUNT && RegistersOutside(env.platform) && Execute(env, insn, m).Done?
    ensures var r := Execute(env, insn, m);
            |r.machine.registers| == REG_COUNT && (LegalStep(m, r.machine, r.touches) <==> LegalCall(env, insn, m))
  {
    hide ExecuteCompute, ExecuteBranch, ExecuteLoad, ExecuteStore, IgnoreSyscall, LegalStep, RegistersOutside,
         ApplyMem, Touches;
    match Category(insn.kind)
    case Compute => ComputeLegal(insn, m);
    case Branch => BranchLegal(insn, m);
    case Load => LoadLegal(env, insn, m);
    case Store => StoreLegal(env, insn, m);
    case System =>
      var code := m.registers[REG_ECALL];
      if code == ECALL_HALT {
        HaltLegal(m);
      } else if env.syscall(code, m).None? {
        IgnoredLegal(env, m);
      }
    case Invalid =>
  }

  /** A known system call leaves x0 zero and the pc aligned. */
  ghost predicate CallKeepsCore(env: Env, insn: Instruction, m: Machine)
    requires |m.registers| == REG_COUNT
  {
    match CallOf(env, insn, m)
    case None => true
    case Some(e) =>
      ApplyRegs(m.registers, e.regOps).Some? ==>
        ApplyRegs(m.registers, e.regOps).value[0] == 0 && (e.nextPc.Some? ==> Aligned(e.nextPc.value))
  }

  lemma ComputeValid(insn: Instruction, m: Machine)
    requires ValidMachine(m) && Category(insn.kind).Compute? && ExecuteCompute(insn, m).Done?
    ensures ValidMachine(ExecuteCompute(insn, m).machine)
  {
    hide ComputePc, ComputeOut, Aligned, ReadReg, WriteReg;
  }

  lemma MemoryValid(env: Env, insn: Instruction, m: Machine)
    requires ValidMachine(m)
    ensures ExecuteLoad(env, insn, m).Done? ==> ValidMachine(ExecuteLoad(env, insn, m).machine)
    ensures ExecuteStore(env, insn, m).Done? ==> ValidMachine(ExecuteStore(env, insn, m).machine)
    ensures ExecuteBranch(insn, m).Done? ==> ValidMachine(ExecuteBranch(insn, m).machine)
    ensures ValidMachine(IgnoreSyscall(env, m).machine)
  {
    hide BranchPc, Aligned, ReadReg, WriteReg, WriteMem, NextPc, Platform.CanRead, Platform.CanWrite, Misaligned,
         Address, LoadValue, StoreValue, LastStackWord, Waddr;
    NextAligned(m.pc);
  }

  lemma CallValid(e: SyscallEffects, m: Machine)
    requires ValidMachine(m) && ApplySyscall(e, m).Done?
    requires ApplyRegs(m.registers, e.regOps).Some? ==>
               ApplyRegs(m.registers, e.regOps).value[0] == 0 && (e.nextPc.Some? ==> Aligned(e.nextPc.value))
    ensures ValidMachine(ApplySyscall(e, m).machine)
  {
    hide Aligned, NextPc, ApplyMem, ApplyRegs, Touches, ReadReg;
    NextAligned(m.pc);
  }

  /** Every completed instruction keeps x0 zero and the pc aligned, except for a system call that does not. */
  lemma ExecuteValid(env: Env, insn: Instruction, m: Machine)
    requires ValidMachine(m) && Execute(env, insn, m).Done? && CallKeepsCore(env, insn, m)
    ensures ValidMachine(Execute(env, insn, m).machine)
  {
    hide ExecuteCompute, ExecuteBranch, ExecuteLoad, ExecuteStore, ApplySyscall, IgnoreSyscall, Aligned, ApplyRegs;
    MemoryValid(env, insn, m);
    match Category(insn.kind)
    case Compute => ComputeValid(insn, m);
    case System =>
      AlignedZero();
      if CallOf(env, insn, m).Some? { CallValid(CallOf(env, insn, m).value, m); }
    case _ =>
  }

  lemma AlignedZero()
    ensures Aligned(0)
  {
  }

  lemma CallSubcycles(e: SyscallEffects, m: Machine)
    requires |m.registers| == REG_COUNT && ApplySyscall(e, m).Done?
    ensures forall i :: 0 <= i < |ApplySyscall(e, m).touches| ==> ApplySyscall(e, m).touches[i].sub < SUBCYCLES_PER_INSN
  {
    hide ApplyMem, ApplyRegs, RegAddr, Touches;
  }

  /** All subcycles of one instruction lie within its cycles. */
  lemma ExecuteSubcycles(env: Env, insn: Instruction, m: Machine)
    requires |m.registers| == REG_COUNT && Execute(env, insn, m).Done?
    ensures forall i :: 0 <= i < |Execute(env, insn, m).touches| ==>
              Execute(env, insn, m).touches[i].sub < SUBCYCLES_PER_INSN
  {
    hide ComputePc, ComputeOut, BranchPc, Aligned, NextPc, Platform.CanRead, Platform.CanWrite, Misaligned,
         Address, LoadValue, StoreValue, LastStackWord, Waddr, RegAddr, ApplySyscall;
    if CallOf(env, insn, m).Some? {
      CallSubcycles(CallOf(env, insn, m).value, m);
    }
  }

  /** The call made at a state of a run, if one is made, is legal. */
  ghost predicate LegalCallAt(env: Env, p: Program, m: Machine)
  {
    |m.registers| == REG_COUNT && Fetch(p, m.pc).Some? ==> LegalCall(env, Fetch(p, m.pc).value, m)
  }

  lemma StepLegal(env: Env, p: Program, m: Machine)
    requires |m.registers| == REG_COUNT && RegistersOutside(env.platform) && Step(env, p, m).Done?
    ensures var r := Step(env, p, m);
            && |r.machine.registers| == REG_COUNT && (LegalStep(m, r.machine, r.touches) <==> LegalCallAt(env, p, m))
            && forall i :: 0 <= i < |r.touches| ==> r.touches[i].sub < SUBCYCLES_PER_INSN
  {
    hide Execute, LegalStep, Fetch, WordStart, LegalCall, RegistersOutside;
    ExecuteLegal(env, Fetch(p, m.pc).value, m);
    ExecuteSubcycles(env, Fetch(p, m.pc).value, m);
  }

  // ---------- runs ----------

  /** The machine with the cycle of its next instruction and the trace so far. */
  datatype Traced = Traced(machine: Machine, cycle: nat, trace: seq<Use>)

  /** The trace is chained and tells the contents of the machine. */
  ghost predicate RunInv(init: WordAddr -> Word, v: Traced) {
    && |v.machine.registers| == REG_COUNT && Chained(init, v.trace) && Agrees(init, v.trace, v.machine) &&
        AllBefore(v.trace, v.cycle)
  }

  /** A fresh machine starts at cycle 4 with an empty trace. */
  function Start(m: Machine): Traced { Traced(m, SUBCYCLES_PER_INSN, []) }

  function Contents(m: Machine): WordAddr -> Word
    requires |m.registers| == REG_COUNT
  {
    (a: WordAddr) => Current(m, a)
  }

  /** The state after n completed steps; None if an earlier step failed or the machine had halted. */
  function After(env: Env, p: Program, v: Traced, n: nat): Option<Traced>
    decreases n
  {
    if n == 0 then Some(v)
    else if v.machine.halted || |v.machine.registers| != REG_COUNT then None
    else
      match Step(env, p, v.machine)
      case Trapped(_) => None
      case Done(next, touches) => After(env, p, Advanced(v, next, touches), n - 1)
  }

  function Advanced(v: Traced, next: Machine, touches: seq<Touch>): Traced {
    Traced(next, v.cycle + SUBCYCLES_PER_INSN, Stamp(v.trace, v.cycle, touches))
  }

  /** The traced run is the run of the machine. */
  lemma {:induction false} AfterMachine(env: Env, p: Program, v: Traced, n: nat)
    ensures WordRun(env, p, v.machine, n)
         == match After(env, p, v, n) case None => None case Some(later) => Some(later.machine)
    decreases n
  {
    hide Step, Stamp;
    if n > 0 && !v.machine.halted && |v.machine.registers| == REG_COUNT && Step(env, p, v.machine).Done? {
      var r := Step(env, p, v.machine);
      AfterMachine(env, p, Advanced(v, r.machine, r.touches), n - 1);
    }
  }

  lemma StartInv(m: Machine)
    requires |m.registers| == REG_COUNT
    ensures RunInv(Contents(m), Start(m))
  {
  }

  /** A completed step extends the chained trace exactly when the call it makes, if any, is legal. */
  lemma StepKeepsInv(env: Env, p: Program, init: WordAddr -> Word, v: Traced)
    requires RegistersOutside(env.platform) && RunInv(init, v) && Step(env, p, v.machine).Done?
    ensures var r := Step(env, p, v.machine);
            RunInv(init, Advanced(v, r.machine, r.touches)) <==> LegalCallAt(env, p, v.machine)
  {
    hide Step, Current, ValueAt, LastTs, Chained, LegalValues, LegalOrder, Stamp, Replay, LegalCallAt, RegistersOutside;
    var r := Step(env, p, v.machine);
    var later := Stamp(v.trace, v.cycle, r.touches);
    StepLegal(env, p, v.machine);
    assert TimesAhead(v.trace, v.cycle, r.touches);
    StampChainedIff(init, v.trace, v.machine, v.cycle, r.touches);
    forall a: WordAddr ensures LastTs(v.trace, a) < v.cycle + SUBCYCLES_PER_INSN {}
    StampBefore(v.trace, v.cycle, r.touches);
    if LegalOrder(r.touches) && LegalValues(v.machine, r.touches) {
      StampKeeps(init, v.trace, v.machine, v.cycle, r.touches);
      SameAgrees(init, later, Replay(v.machine, r.touches), r.machine);
    }
  }

  /** A trace tells the contents of two machines exactly when they have the same. */
  lemma SameAgrees(init: WordAddr -> Word, trace: seq<Use>, m: Machine, n: Machine)
    requires |m.registers| == |n.registers| == REG_COUNT && Agrees(init, trace, m)
    ensures Agrees(init, trace, n) <==> SameContents(m, n)
  {
    hide Current, ValueAt;
    if Agrees(init, trace, n) {
      forall a: WordAddr ensures Current(m, a) == Current(n, a) { assert ValueAt(init, trace, a) == Current(m, a); }
    }
    if SameContents(m, n) {
      forall a: WordAddr ensures ValueAt(init, trace, a) == Current(n, a) { assert Current(m, a) == Current(n, a); }
    }
  }

  // ---------- the condition on the calls of a run ----------

  ghost predicate LegalIn(env: Env, p: Program, o: Option<Traced>) { o.Some? ==> LegalCallAt(env, p, o.value.machine) }

  /** Every system call made in the first n steps is legal. */
  ghost predicate LegalCalls(env: Env, p: Program, v: Traced, n: nat) {
    forall k: nat :: k < n ==> LegalIn(env, p, After(env, p, v, k))
  }

  ghost predicate FaithfulIn(init: WordAddr -> Word, o: Option<Traced>) { o.Some? ==> RunInv(init, o.value) }

  /** After every step the trace is chained and tells the contents of the machine. */
  ghost predicate FaithfulRun(env: Env, p: Program, init: WordAddr -> Word, v: Traced, n: nat) {
    forall k: nat :: k <= n ==> FaithfulIn(init, After(env, p, v, k))
  }

  lemma AfterStep(env: Env, p: Program, v: Traced, n: nat)
    requires n > 0 && After(env, p, v, n).Some?
    ensures !v.machine.halted && |v.machine.registers| == REG_COUNT && Step(env, p, v.machine).Done?
    ensures var r := Step(env, p, v.machine);
            forall k: nat :: After(env, p, v, k + 1) == After(env, p, Advanced(v, r.machine, r.touches), k)
    ensures After(env, p, v, 0) == Some(v)
  {
    hide Step, Advanced;
  }

  lemma CallsUnfold(env: Env, p: Program, init: WordAddr -> Word, v: Traced, n: nat)
    requires n > 0 && After(env, p, v, n).Some?
    ensures |v.machine.registers| == REG_COUNT && Step(env, p, v.machine).Done?
    ensures var r := Step(env, p, v.machine);
            var next := Advanced(v, r.machine, r.touches);
            && After(env, p, v, n) == After(env, p, next, n - 1)
            && (LegalCalls(env, p, v, n) <==> LegalCallAt(env, p, v.machine) && LegalCalls(env, p, next, n - 1))
            && (FaithfulRun(env, p, init, v, n) <==> RunInv(init, v) && FaithfulRun(env, p, init, next, n - 1))
  {
    AfterStep(env, p, v, n);
    hide Step, Advanced, After, LegalCallAt, RunInv;
    var r := Step(env, p, v.machine);
    var next := Advanced(v, r.machine, r.touches);
    assert After(env, p, v, (n - 1) + 1) == After(env, p, next, n - 1);
    if LegalCalls(env, p, v, n) {
      assert LegalIn(env, p, After(env, p, v, 0));
      forall k: nat | k < n - 1
          ensures LegalIn(env, p, After(env, p, next, k)) { assert LegalIn(env, p, After(env, p, v, k + 1)); }
    }
    if LegalCallAt(env, p, v.machine) && LegalCalls(env, p, next, n - 1) {
      forall k: nat | k < n ensures LegalIn(env, p, After(env, p, v, k)) {
        if k > 0 { assert After(env, p, v, (k - 1) + 1) == After(env, p, next, k - 1); }
      }
    }
    if FaithfulRun(env, p, init, v, n) {
      assert FaithfulIn(init, After(env, p, v, 0));
      forall k: nat | k <= n - 1
          ensures FaithfulIn(init, After(env, p, next, k)) { assert FaithfulIn(init, After(env, p, v, k + 1)); }
    }
    if RunInv(init, v) && FaithfulRun(env, p, init, next, n - 1) {
      forall k: nat | k <= n ensures FaithfulIn(init, After(env, p, v, k)) {
        if k > 0 { assert After(env, p, v, (k - 1) + 1) == After(env, p, next, k - 1); }
      }
    }
  }

  /** The exact condition over whole runs, for any system calls: after every step the trace is chained and tells the
      contents of the machine if and only if every call that is made is legal. */
  lemma {:induction false} RunFaithfulIff(env: Env, p: Program, init: WordAddr -> Word, v: Traced, n: nat)
    requires RegistersOutside(env.platform) && RunInv(init, v) && After(env, p, v, n).Some?
    ensures FaithfulRun(env, p, init, v, n) <==> LegalCalls(env, p, v, n)
    decreases n
  {
    hide Step, Advanced, RunInv, RegistersOutside, LegalCalls, LegalCallAt;
    if n == 0 {
      NoCalls(env, p, v);
      assert After(env, p, v, 0) == Some(v);
    } else {
      hide After, FaithfulRun;
      CallsUnfold(env, p, init, v, n);
      StepKeepsInv(env, p, init, v);
      var r := Step(env, p, v.machine);
      var next := Advanced(v, r.machine, r.touches);
      if LegalCallAt(env, p, v.machine) {
        RunFaithfulIff(env, p, init, next, n - 1);
      } else if FaithfulRun(env, p, init, next, n - 1) {
        FirstFaithful(env, p, init, next, n - 1);
        assert false;
      }
    }
  }

  lemma NoCalls(env: Env, p: Program, v: Traced)
    ensures LegalCalls(env, p, v, 0)
  {
  }

  lemma FirstFaithful(env: Env, p: Program, init: WordAddr -> Word, v: Traced, n: nat)
    requires FaithfulRun(env, p, init, v, n)
    ensures RunInv(init, v)
  {
    hide RunInv;
    assert FaithfulIn(init, After(env, p, v, 0));
  }

  lemma LastFaithful(env: Env, p: Program, init: WordAddr -> Word, v: Traced, n: nat)
    requires FaithfulRun(env, p, init, v, n) && After(env, p, v, n).Some?
    ensures RunInv(init, After(env, p, v, n).value)
  {
    hide RunInv, After;
    assert FaithfulIn(init, After(env, p, v, n));
  }

  // ---------- the chain alone ----------

  /** The operations of the call made at a state lie where they belong. */
  ghost predicate ApartIn(env: Env, p: Program, o: Option<Traced>) {
    o.Some? && |o.value.machine.registers| == REG_COUNT && Fetch(p, o.value.machine.pc).Some? ==>
      match CallOf(env, Fetch(p, o.value.machine.pc).value, o.value.machine) case None => true
          case Some(e) => OpsApart(e)
  }

  ghost predicate ApartCalls(env: Env, p: Program, v: Traced, n: nat) {
    forall k: nat :: k < n ==> ApartIn(env, p, After(env, p, v, k))
  }

  lemma ApartUnfold(env: Env, p: Program, v: Traced, n: nat)
    requires n > 0 && After(env, p, v, n).Some? && ApartCalls(env, p, v, n)
    ensures |v.machine.registers| == REG_COUNT && Step(env, p, v.machine).Done? && ApartIn(env, p, Some(v))
    ensures var r := Step(env, p, v.machine); ApartCalls(env, p, Advanced(v, r.machine, r.touches), n - 1)
  {
    AfterStep(env, p, v, n);
    hide Step, Advanced, After, ApartIn;
    var r := Step(env, p, v.machine);
    var next := Advanced(v, r.machine, r.touches);
    assert ApartIn(env, p, After(env, p, v, 0));
    forall k: nat | k < n - 1
        ensures ApartIn(env, p, After(env, p, next, k)) { assert ApartIn(env, p, After(env, p, v, k + 1)); }
  }

  /** The trace only grows. */
  lemma {:induction false} ChainedBefore(env: Env, p: Program, init: WordAddr -> Word, v: Traced, n: nat)
    requires After(env, p, v, n).Some? && Chained(init, After(env, p, v, n).value.trace)
    ensures Chained(init, v.trace)
    decreases n
  {
    hide Step, Stamp, Chained;
    if n > 0 {
      var r := Step(env, p, v.machine);
      ChainedBefore(env, p, init, Advanced(v, r.machine, r.touches), n - 1);
      StampPrefix(init, v.trace, v.cycle, r.touches);
    }
  }

  /** A step whose call has its operations where they belong keeps the chain exactly when the call is legal. */
  lemma ApartStep(env: Env, p: Program, init: WordAddr -> Word, v: Traced)
    requires RegistersOutside(env.platform) && RunInv(init, v) && Step(env, p, v.machine).Done? &&
               ApartIn(env, p, Some(v))
    ensures var r := Step(env, p, v.machine);
            && (Chained(init, Stamp(v.trace, v.cycle, r.touches)) <==> LegalCallAt(env, p, v.machine))
            && (LegalCallAt(env, p, v.machine) <==> LegalOrder(r.touches) && LegalValues(v.machine, r.touches))
  {
    hide Step, ValueAt, LastTs, Chained, LegalValues, LegalOrder, Stamp, Current, RegistersOutside, LegalStep,
         LegalCallAt, ApartIn, Agrees;
    var r := Step(env, p, v.machine);
    StepLegal(env, p, v.machine);
    assert TimesAhead(v.trace, v.cycle, r.touches);
    StampChainedIff(init, v.trace, v.machine, v.cycle, r.touches);
    ApartLegal(env, p, v);
  }

  lemma ApartLegal(env: Env, p: Program, v: Traced)
    requires |v.machine.registers| == REG_COUNT && RegistersOutside(env.platform) && Step(env, p, v.machine).Done? &&
               ApartIn(env, p, Some(v))
    ensures var r := Step(env, p, v.machine);
            LegalCallAt(env, p, v.machine) <==> LegalOrder(r.touches) && LegalValues(v.machine, r.touches)
  {
    hide LegalValues, LegalOrder, SameContents, RegistersOutside, OpsApart, ExecuteCompute, ExecuteBranch, ExecuteLoad,
         ExecuteStore, ApplySyscall,
         IgnoreSyscall, Fetch, WordStart;
    StepLegal(env, p, v.machine);
    var insn := Fetch(p, v.machine.pc).value;
    if CallOf(env, insn, v.machine).Some? {
      ApartCall(CallOf(env, insn, v.machine).value, v.machine);
    }
  }

  /** The chain over whole runs: as long as the calls keep registers and memory apart, the trace of n steps is
      chained if and only if every call made uses its addresses in order and from their current contents. */
  lemma {:induction false} RunChainedIff(env: Env, p: Program, init: WordAddr -> Word, v: Traced, n: nat)
    requires RegistersOutside(env.platform) && RunInv(init, v) && After(env, p, v, n).Some? && ApartCalls(env, p, v, n)
    ensures Chained(init, After(env, p, v, n).value.trace) <==> LegalCalls(env, p, v, n)
    decreases n
  {
    hide Step, RegistersOutside, LegalCalls, LegalCallAt, Chained, Agrees, ApartCalls, ApartIn, LegalOrder, LegalValues;
    if n == 0 {
      NoCalls(env, p, v);
    } else {
      hide After;
      CallsUnfold(env, p, init, v, n);
      ApartUnfold(env, p, v, n);
      ApartStep(env, p, init, v);
      StepKeepsInv(env, p, init, v);
      var r := Step(env, p, v.machine);
      var next := Advanced(v, r.machine, r.touches);
      if LegalCallAt(env, p, v.machine) {
        RunChainedIff(env, p, init, next, n - 1);
      } else if Chained(init, After(env, p, v, n).value.trace) {
        ChainedBefore(env, p, init, next, n - 1);
        assert false;
      }
    }
  }

  /** The addresses of a trace, each once. */
  function AddressesOf(trace: seq<Use>): (r: seq<WordAddr>)
    ensures NoDuplicates(r) && forall i :: 0 <= i < |trace| ==> trace[i].addr in r
    decreases |trace|
  {
    if trace == [] then []
    else
      var rest := AddressesOf(trace[1..]);
      assert forall i :: 1 <= i < |trace| ==> trace[i] == trace[1..][i - 1];
      if trace[0].addr in rest then rest else rest + [trace[0].addr]
  }

  /** Every run of the emulator, of any length, whose system calls are legal yields a trace that balances against the
      initial and the final contents of the addresses it touches; each access names the cycle of the latest earlier
      access to its address and starts from the value that access left, or names cycle 0 and starts from the initial
      contents.  A run that makes no call needs no assumption on calls. */
  lemma EveryRunBalances(env: Env, p: Program, m: Machine, n: nat)
    requires RegistersOutside(env.platform) && |m.registers| == REG_COUNT && After(env, p, Start(m), n).Some?
    requires LegalCalls(env, p, Start(m), n)
    ensures var v, init := After(env, p, Start(m), n).value, Contents(m);
            var addrs := AddressesOf(v.trace);
            && |v.machine.registers| == REG_COUNT
            && Chained(init, v.trace) && (forall a :: ValueAt(init, v.trace, a) == Current(v.machine, a))
            && Balanced(InitRecords(init, addrs), v.trace, FinalRecords(init, v.trace, addrs))
            && (forall i :: 0 <= i < |v.trace| ==> ReadsLatest(InitRecords(init, addrs), v.trace, i))
  {
    hide After, Step, Chained, Balanced, ReadsLatest, Current, ValueAt, LastTs, RegistersOutside, LegalCalls,
         FaithfulRun;
    StartInv(m);
    RunFaithfulIff(env, p, Contents(m), Start(m), n);
    LastFaithful(env, p, Contents(m), Start(m), n);
    var v, init := After(env, p, Start(m), n).value, Contents(m);
    var addrs := AddressesOf(v.trace);
    ChainedTraceBalances(init, v.trace, addrs);
    forall i | 0 <= i < |v.trace| ensures ReadsLatest(InitRecords(init, addrs), v.trace, i) {
      BalancedMemoryIsConsistent(InitRecords(init, addrs), v.trace, FinalRecords(init, v.trace, addrs), i);
    }
  }

  /** A call that reports each register and each word once, with its current contents, is legal. */
  lemma ValidCallIsLegal(env: Env, p: Program, m: Machine)
    requires |m.registers| == REG_COUNT && Fetch(p, m.pc).Some?
    requires CallOf(env, Fetch(p, m.pc).value, m).Some?
    requires ValidEffects(CallOf(env, Fetch(p, m.pc).value, m).value, m)
    ensures LegalCallAt(env, p, m)
  {
    hide Fetch, ValidEffects, LegalStep, ApplyRegs, ApplyMem, Touches;
    SyscallLegal(CallOf(env, Fetch(p, m.pc).value, m).value, m);
  }

  // ---------- the default platform ----------

  const CENO_PLATFORM :=
    Platform(Range(0x2000_0000, 0x2800_0000), {}, Range(0x3000_0000, 0x3004_0000), Range(0xB000_0000, 0xC000_0000),
             Range(0x8000_0000, 0xFFFF_0000), Range(0x4000_0000, 0x5000_0000), false)

  lemma HighAddress(a: Word)
    requires a >= 0x2100
    ensures Waddr(a) >= 0x840
  {
    hide Number;
    LowestAddress();
    LessNumber(a, 0x2100);
  }

  lemma LowestAddress()
    ensures Number(0x2100) == 0x2100
  {
  }

  lemma RangeAbove(r: Range, a: Word)
    requires r.start >= 0x2100 && r.Contains(a)
    ensures a >= 0x2100
  {
  }

  lemma MaskedBelow(a: Word)
    requires WholeWord(a) >= 0x2100
    ensures a >= 0x2100
  {
  }

  lemma WritableAbove(p: Platform, a: Word)
    requires p.stack.start >= 0x2100 && p.heap.start >= 0x2100 && p.publicIo.start >= 0x2100 && p.hints.start >= 0x2100
    requires (forall d :: d in p.progData ==> d >= 0x2100) && p.CanWrite(a)
    ensures a >= 0x2100
  {
    hide Range.Contains, WholeWord;
    if p.stack.Contains(a) { RangeAbove(p.stack, a); }
    else if p.heap.Contains(a) { RangeAbove(p.heap, a); }
    else if p.publicIo.Contains(a) { RangeAbove(p.publicIo, a); }
    else if p.hints.Contains(a) { RangeAbove(p.hints, a); }
    else { MaskedBelow(a); }
  }

  lemma NoRegisterAbove(w: WordAddr)
    requires w >= 0x840
    ensures !IsRegAddr(w)
  {
  }

  /** The default platform keeps memory away from the registers, with any program data at 0x2100 or above. */
  lemma DefaultPlatformOutside(progData: set<Word>)
    requires forall a :: a in progData ==> a >= 0x2100
    ensures RegistersOutside(CENO_PLATFORM.(progData := progData))
  {
    hide Platform.CanWrite, Waddr, IsRegAddr;
    var p := CENO_PLATFORM.(progData := progData);
    forall a: Word | p.CanWrite(a) ensures !IsRegAddr(Waddr(a)) {
      WritableAbove(p, a);
      HighAddress(a);
      NoRegisterAbove(Waddr(a));
    }
  }

  // ---------- calls with overlapping operands ----------

  /** A call that reports one word twice is never legal, whatever values it reports. */
  lemma OverlapIsIllegal(env: Env, p: Program, m: Machine, i: nat, j: nat)
    requires |m.registers| == REG_COUNT && Fetch(p, m.pc).Some? && CallOf(env, Fetch(p, m.pc).value, m).Some?
    requires var e := CallOf(env, Fetch(p, m.pc).value, m).value;
             OpsApart(e) && i < j < |e.memOps| && e.memOps[i].addr == e.memOps[j].addr
    ensures !LegalCallAt(env, p, m)
  {
    hide Fetch, OpsApart, LegalValues, SameContents, ApplyRegs, ApplyMem;
    var e := CallOf(env, Fetch(p, m.pc).value, m).value;
    ApartCall(e, m);
    var touches := ApplySyscall(e, m).touches;
    var k := 1 + |e.regOps|;
    assert touches[k + i] == Touches(e.memOps, SUBCYCLE_MEM)[i] && touches[k + j] == Touches(e.memOps, SUBCYCLE_MEM)[j];
    assert !LegalOrder(touches);
  }

  /** A call that reads a word and writes it through a second operand. */
  const OVERLAPPING := SyscallEffects([WriteOp(0x900, 0, 0, 0), WriteOp(0x900, 0, 7, 0)], [], None)

  const CALLING := Instruction(ECALL, 0, 0, 0, 0, 0)

  /** One ECALL at address 0, on a machine with a code other than halt in its register and empty memory. */
  function CallingMachine(): Machine { Machine(0, seq(REG_COUNT, i => if i == REG_ECALL then 1 else 0), map[], false) }

  function OverlappingEnv(): Env { Env(CENO_PLATFORM, (code: Word, m: Machine) => Some(OVERLAPPING)) }

  lemma CallingFetch(p: Program)
    requires p == Program(0, 0, [CALLING])
    ensures Fetch(p, 0) == Some(CALLING) && WordStart(0) == 0 && NextPc(0) == 4
  {
    hide Number, Wrapped;
    ZeroWord();
    WrappedNumber(0);
    WrappedNumber(4);
    NumberInjective(WordStart(0), 0);
    NumberInjective(NextPc(0), 4);
  }

  lemma WordOutside(a: WordAddr)
    requires a == 0x900
    ensures !IsRegAddr(a)
  {
  }

  /** A run on the default platform whose one call overlaps: it completes, and its trace is not chained. */
  lemma OverlapBreaksChain()
    ensures var env, p, m := OverlappingEnv(), Program(0, 0, [CALLING]), CallingMachine();
            && |m.registers| == REG_COUNT && After(env, p, Start(m), 1).Some?
            && !Chained(Contents(m), After(env, p, Start(m), 1).value.trace)
  {
    hide Chained, Fetch, WordStart, NextPc, RegistersOutside, IsRegAddr, LegalCallAt, Current, Stamp;
    var env, p, m := OverlappingEnv(), Program(0, 0, [CALLING]), CallingMachine();
    CallingFetch(p);
    WordOutside(0x900);
    DefaultPlatformOutside({});
    assert CENO_PLATFORM.(progData := {}) == CENO_PLATFORM;
    assert CallOf(env, CALLING, m) == Some(OVERLAPPING);
    assert Step(env, p, m).Done?;
    StartInv(m);
    OverlapIsIllegal(env, p, m, 0, 1);
    assert After(env, p, Start(m), 0) == Some(Start(m));
    assert LegalIn(env, p, After(env, p, Start(m), 0)) ==> LegalCallAt(env, p, m);
    RunChainedIff(env, p, Contents(m), Start(m), 1);
  }
}

/** What every instruction does to the machine, in the numbers of the words: the next pc, the destination register, the
    memory, the traps, and the registers and memory words it uses. */
module Meanings {
  import opened Wrappers
  import opened Words
  import opened Rv32im
  import opened Arithmetic

  // ---------- branches and jumps ----------

  predicate IsBranch(kind: InsnKind) { kind in {BEQ, BNE, BLT, BGE, BLTU, BGEU} }

  predicate BranchCondition(kind: InsnKind, a: Word, b: Word) {
    match kind
    case BEQ => Number(a) == Number(b)
    case BNE => Number(a) != Number(b)
    case BLT => Signed(a) < Signed(b)
    case BGE => Signed(a) >= Signed(b)
    case BLTU => Number(a) < Number(b)
    case BGEU => Number(a) >= Number(b)
    case _ => false
  }

  lemma TakenMeaning(kind: InsnKind, a: Word, b: Word)
    requires IsBranch(kind)
    ensures Taken(kind, a, b) <==> BranchCondition(kind, a, b)
  {
    hide Number, Signed, SignedLess, Less;
    SignedOrder(a, b);
    LessOrder(a, b);
    if Number(a) == Number(b) { NumberInjective(a, b); }
  }

  lemma JumpTargetNumber(t: Word)
    ensures Number(JumpTarget(t)) == Number(t) - Number(t) % 2
  {
    hide Number, Upper, Odd, JumpTarget;
    JumpTargetHalves(t);
    HalvesNumber(t);
    HalvesNumber(JumpTarget(t));
  }

  lemma JumpTargetHalves(t: Word)
    ensures Upper(JumpTarget(t)) == Upper(t) && !Odd(JumpTarget(t))
  {
  }

  /** The address of the instruction that follows. */
  function FollowingPc(insn: Instruction, m: Machine): nat
    requires |m.registers| == REG_COUNT
  {
    var a, b, imm := m.registers[insn.rs1], m.registers[insn.rs2], Number(insn.imm);
    match insn.kind
    case JAL => (Number(m.pc) + imm) % TWO32
    case JALR => (Number(a) + imm) % TWO32 - (Number(a) + imm) % TWO32 % 2
    case BEQ | BNE | BLT | BGE | BLTU | BGEU =>
      if BranchCondition(insn.kind, a, b) then (Number(m.pc) + imm) % TWO32 else (Number(m.pc) + 4) % TWO32
    case _ => (Number(m.pc) + 4) % TWO32
  }

  /** The register that takes the result: writes to x0 go to the extra register. */
  function Destination(insn: Instruction): nat { if insn.rd == 0 then 32 else insn.rd }

  /** Everything outside the given register is as before. */
  predicate OnlyRegister(m: Machine, next: Machine, rd: nat) {
    && next.memory == m.memory && next.halted == m.halted && |next.registers| == |m.registers|
    && forall i :: 0 <= i < |m.registers| && i != rd ==> next.registers[i] == m.registers[i]
  }

  /** A compute instruction changes the pc and its destination alone; it traps exactly when the next pc is not a
      multiple of four. */
  ghost predicate ComputeMeans(insn: Instruction, m: Machine, r: Effect)
    requires |m.registers| == REG_COUNT
  {
    match r
    case Trapped(cause) => FollowingPc(insn, m) % 4 != 0 && cause == InstructionAddressMisaligned
    case Done(next, _) =>
      var rd := Destination(insn);
      && FollowingPc(insn, m) % 4 == 0 && OnlyRegister(m, next, rd) && Number(next.pc) == FollowingPc(insn, m)
      && match insn.kind
         case JAL | JALR => Stands(next.registers[rd], Number(m.pc) + 4)
         case ADDI | XORI | ORI | ANDI | SLLI | SRLI | SRAI | SLTI | SLTIU =>
           Computes(insn.kind, m.registers[insn.rs1], insn.imm, next.registers[rd])
         case _ => Computes(insn.kind, m.registers[insn.rs1], m.registers[insn.rs2], next.registers[rd])
  }

  lemma ComputePcNumber(insn: Instruction, m: Machine)
    requires |m.registers| == REG_COUNT && (IsArithmetic(insn.kind) || insn.kind in {JAL, JALR})
    ensures Number(ComputePc(insn, m)) == FollowingPc(insn, m)
  {
    hide Number, Wrapped, JumpTarget;
    WrappedNumber(Number(m.pc) + Number(insn.imm));
    WrappedNumber(Number(m.registers[insn.rs1]) + Number(insn.imm));
    WrappedNumber(Number(m.pc) + 4);
    JumpTargetNumber(WrappingAdd(m.registers[insn.rs1], insn.imm));
  }

  lemma ComputeOutMeaning(insn: Instruction, m: Machine)
    requires |m.registers| == REG_COUNT && (IsArithmetic(insn.kind) || insn.kind in {JAL, JALR})
    ensures insn.kind in {JAL, JALR} ==> Stands(ComputeOut(insn, m), Number(m.pc) + 4)
    ensures insn.kind in {ADDI, XORI, ORI, ANDI, SLLI, SRLI, SRAI, SLTI, SLTIU} ==>
              Computes(insn.kind, m.registers[insn.rs1], insn.imm, ComputeOut(insn, m))
    ensures insn.kind !in {JAL, JALR, ADDI, XORI, ORI, ANDI, SLLI, SRLI, SRAI, SLTI, SLTIU} ==>
              Computes(insn.kind, m.registers[insn.rs1], m.registers[insn.rs2], ComputeOut(insn, m))
  {
    hide Number, Wrapped, Alu, Computes;
    WrappedNumber(Number(m.pc) + 4);
    if IsArithmetic(insn.kind) {
      AluComputes(insn.kind, m.registers[insn.rs1], insn.imm);
      AluComputes(insn.kind, m.registers[insn.rs1], m.registers[insn.rs2]);
    }
  }

  lemma ExecuteIs(env: Env, insn: Instruction, m: Machine)
    requires |m.registers| == REG_COUNT
    ensures IsArithmetic(insn.kind) || insn.kind in {JAL, JALR} ==>
              Category(insn.kind).Compute? && Execute(env, insn, m) == ExecuteCompute(insn, m)
    ensures IsBranch(insn.kind) ==> Execute(env, insn, m) == ExecuteBranch(insn, m)
    ensures IsLoad(insn.kind) ==> Execute(env, insn, m) == ExecuteLoad(env, insn, m)
    ensures IsStore(insn.kind) ==> Execute(env, insn, m) == ExecuteStore(env, insn, m)
    ensures insn.kind.ECALL? ==> Execute(env, insn, m) == ExecuteEcall(env, m)
    ensures insn.kind.INVALID? ==> Execute(env, insn, m) == Trapped(IllegalInstruction(insn.raw))
  {
    hide ExecuteCompute, ExecuteBranch, ExecuteLoad, ExecuteStore, ExecuteEcall;
  }

  predicate IsLoad(kind: InsnKind) { kind in {LB, LH, LW, LBU, LHU} }

  predicate IsStore(kind: InsnKind) { kind in {SB, SH, SW} }

  lemma ComputeMeaning(env: Env, insn: Instruction, m: Machine)
    requires |m.registers| == REG_COUNT && (IsArithmetic(insn.kind) || insn.kind in {JAL, JALR})
    ensures ComputeMeans(insn, m, Execute(env, insn, m))
  {
    hide Number, ComputePc, ComputeOut, ComputeInputs, Aligned, Computes, FollowingPc, Stands, WriteReg, ReadReg,
         Execute;
    ExecuteIs(env, insn, m);
    ComputePcNumber(insn, m);
    ComputeOutMeaning(insn, m);
    AlignedNumber(ComputePc(insn, m));
  }

  lemma BranchPcNumber(insn: Instruction, m: Machine)
    requires |m.registers| == REG_COUNT && IsBranch(insn.kind)
    ensures Number(BranchPc(insn, m)) == FollowingPc(insn, m)
  {
    hide Number, Wrapped, Taken, BranchCondition;
    TakenMeaning(insn.kind, m.registers[insn.rs1], m.registers[insn.rs2]);
    WrappedNumber(Number(m.pc) + Number(insn.imm));
    WrappedNumber(Number(m.pc) + 4);
  }

  /** A branch changes the pc alone, and traps as a compute instruction does. */
  ghost predicate BranchMeans(insn: Instruction, m: Machine, r: Effect)
    requires |m.registers| == REG_COUNT
  {
    match r
    case Trapped(cause) => FollowingPc(insn, m) % 4 != 0 && cause == InstructionAddressMisaligned
    case Done(next, _) =>
      FollowingPc(insn, m) % 4 == 0 && Number(next.pc) == FollowingPc(insn, m) && next == m.(pc := next.pc)
  }

  lemma BranchMeaning(env: Env, insn: Instruction, m: Machine)
    requires |m.registers| == REG_COUNT && IsBranch(insn.kind)
    ensures BranchMeans(insn, m, Execute(env, insn, m))
  {
    hide Number, BranchPc, Aligned, FollowingPc, ReadReg, Execute;
    ExecuteIs(env, insn, m);
    BranchPcNumber(insn, m);
    AlignedNumber(BranchPc(insn, m));
  }

  // ---------- loads and stores ----------

  predicate InRange(r: Range, n: nat) { Number(r.start) <= n < Number(r.end) }

  /** Addresses of the stack, the heap, the public input and the hints, and of words of program data; the program itself
      can be neither read nor written. */
  ghost predicate MayAccess(p: Platform, n: nat) {
    || InRange(p.stack, n) || InRange(p.heap, n) || InRange(p.publicIo, n) || InRange(p.hints, n)
    || exists d :: d in p.progData && Number(d) == 4 * (n / 4)
  }

  lemma InRangeMeaning(r: Range, a: Word)
    ensures r.Contains(a) <==> InRange(r, Number(a))
  {
    hide Number, Less;
    LessOrder(a, r.start);
    LessOrder(a, r.end);
  }

  lemma WholeWordHalves(a: Word)
    ensures Upper(Upper(WholeWord(a))) == Upper(Upper(a)) && !Odd(WholeWord(a)) && !Odd(Upper(WholeWord(a)))
  {
  }

  lemma WholeWordNumber(a: Word)
    ensures Number(WholeWord(a)) == 4 * (Number(a) / 4)
  {
    hide Number, Upper, Odd, WholeWord;
    WholeWordHalves(a);
    HalvesNumber(a);
    HalvesNumber(Upper(a));
    HalvesNumber(WholeWord(a));
    HalvesNumber(Upper(WholeWord(a)));
  }

  lemma ProgDataMeaning(p: Platform, a: Word)
    ensures WholeWord(a) in p.progData <==> exists d :: d in p.progData && Number(d) == 4 * (Number(a) / 4)
  {
    hide Number, WholeWord;
    WholeWordNumber(a);
    if d :| d in p.progData && Number(d) == 4 * (Number(a) / 4) { NumberInjective(d, WholeWord(a)); }
  }

  lemma AccessMeaning(p: Platform, a: Word)
    ensures p.CanWrite(a) <==> MayAccess(p, Number(a))
    ensures p.CanRead(a) <==> MayAccess(p, Number(a))
  {
    hide Number, Range.Contains, InRange, WholeWord;
    InRangeMeaning(p.stack, a);
    InRangeMeaning(p.heap, a);
    InRangeMeaning(p.publicIo, a);
    InRangeMeaning(p.hints, a);
    ProgDataMeaning(p, a);
  }

  /** Half words lie at even addresses, and words at multiples of four. */
  predicate AccessAligned(kind: InsnKind, n: nat) {
    (kind in {LH, LHU, SH} ==> n % 2 == 0) && (kind in {LW, SW} ==> n % 4 == 0)
  }

  lemma MisalignedMeaning(kind: InsnKind, a: Word)
    ensures Misaligned(kind, a) <==> !AccessAligned(kind, Number(a))
  {
    hide Number;
    LowBits(a);
    ZeroOrMore(And(a, 1));
    ZeroOrMore(And(a, 3));
  }

  /** The byte address of a load or a store. */
  function AccessAddress(insn: Instruction, m: Machine): nat
    requires |m.registers| == REG_COUNT
  {
    (Number(m.registers[insn.rs1]) + Number(insn.imm)) % TWO32
  }

  lemma AddressNumber(insn: Instruction, m: Machine)
    requires |m.registers| == REG_COUNT
    ensures Number(Address(insn, m)) == AccessAddress(insn, m)
  {
    hide Number, Wrapped;
    WrappedNumber(Number(m.registers[insn.rs1]) + Number(insn.imm));
  }

  lemma NextPcNumber(pc: Word)
    ensures Number(NextPc(pc)) == (Number(pc) + 4) % TWO32
  {
    hide Number, Wrapped;
    WrappedNumber(Number(pc) + 4);
  }

  /** Loads change the destination and the pc alone, and trap exactly for an address that may not be read or is not
      aligned, in this order. */
  ghost predicate LoadMeans(platform: Platform, insn: Instruction, m: Machine, r: Effect)
    requires |m.registers| == REG_COUNT
  {
    var n, addr, rd := AccessAddress(insn, m), Address(insn, m), Destination(insn);
    && Number(addr) == n
    && match r
       case Done(next, _) =>
         && MayAccess(platform, n) && AccessAligned(insn.kind, n)
         && OnlyRegister(m, next, rd) && Number(next.pc) == (Number(m.pc) + 4) % TWO32
         && next.registers[rd] == LoadValue(insn.kind, m.PeekMemory(n / 4), addr)
       case Trapped(cause) =>
         if MayAccess(platform, n) then !AccessAligned(insn.kind, n) && cause == LoadAddressMisaligned
         else cause == LoadAccessFault(addr)
  }

  lemma LoadMeaning(env: Env, insn: Instruction, m: Machine)
    requires |m.registers| == REG_COUNT && IsLoad(insn.kind)
    ensures LoadMeans(env.platform, insn, m, Execute(env, insn, m))
  {
    hide Number, Address, AccessAddress, MayAccess, AccessAligned, LoadValue, Misaligned, NextPc, Platform.CanRead,
         ReadReg, WriteReg, WriteMem, Execute;
    ExecuteIs(env, insn, m);
    AddressNumber(insn, m);
    AccessMeaning(env.platform, Address(insn, m));
    MisalignedMeaning(insn.kind, Address(insn, m));
    NextPcNumber(m.pc);
  }

  /** Stores change the addressed word and the pc alone, and trap exactly for an address that may not be written or is
      not aligned, in this order. */
  ghost predicate StoreMeans(platform: Platform, insn: Instruction, m: Machine, r: Effect)
    requires |m.registers| == REG_COUNT
  {
    var n, addr := AccessAddress(insn, m), Address(insn, m);
    && Number(addr) == n
    && match r
       case Done(next, _) =>
         && MayAccess(platform, n) && AccessAligned(insn.kind, n)
         && next.registers == m.registers && next.halted == m.halted
         && Number(next.pc) == (Number(m.pc) + 4) % TWO32
         && (forall a: WordAddr :: a != n / 4 ==> next.PeekMemory(a) == m.PeekMemory(a))
         && next.PeekMemory(n / 4) == StoreValue(insn.kind, m.PeekMemory(n / 4), addr, m.registers[insn.rs2])
       case Trapped(cause) =>
         if MayAccess(platform, n) then !AccessAligned(insn.kind, n) && cause == StoreAddressMisaligned(addr)
         else cause == StoreAccessFault
  }

  lemma StoreMeaning(env: Env, insn: Instruction, m: Machine)
    requires |m.registers| == REG_COUNT && IsStore(insn.kind)
    ensures StoreMeans(env.platform, insn, m, Execute(env, insn, m))
  {
    hide Number, Address, AccessAddress, MayAccess, AccessAligned, StoreValue, Misaligned, NextPc, Platform.CanWrite,
         ReadReg, WriteMem, Execute;
    ExecuteIs(env, insn, m);
    AddressNumber(insn, m);
    AccessMeaning(env.platform, Address(insn, m));
    MisalignedMeaning(insn.kind, Address(insn, m));
    NextPcNumber(m.pc);
  }

  // ---------- system calls ----------

  /** The value that the last operation on an address leaves there. */
  function Written(ops: seq<WriteOp>, a: WordAddr, before: Word): Word {
    if ops == [] then before
    else if ops[|ops| - 1].addr == a then ops[|ops| - 1].after
    else Written(ops[..|ops| - 1], a, before)
  }

  lemma {:induction false} WrittenFirst(ops: seq<WriteOp>, a: WordAddr, before: Word)
    requires ops != []
    ensures Written(ops, a, before) == Written(ops[1..], a, if ops[0].addr == a then ops[0].after else before)
    decreases |ops|
  {
    if |ops| > 1 {
      assert ops[1..][..|ops| - 2] == ops[..|ops| - 1][1..];
      WrittenFirst(ops[..|ops| - 1], a, before);
    }
  }

  lemma {:induction false} ApplyMemWritten(memory: map<WordAddr, Word>, ops: seq<WriteOp>, a: WordAddr)
    ensures var before, after := if a in memory then memory[a] else 0, ApplyMem(memory, ops);
            (if a in after then after[a] else 0) == Written(ops, a, before)
    decreases |ops|
  {
    if ops != [] {
      ApplyMemWritten(memory[ops[0].addr := ops[0].after], ops[1..], a);
      WrittenFirst(ops, a, if a in memory then memory[a] else 0);
    }
  }

  /** The value that the last operation on a register leaves there. */
  function WrittenReg(ops: seq<WriteOp>, idx: nat, before: Word): Word {
    if ops == [] then before
    else if RegisterIndex(ops[|ops| - 1].addr) == idx then ops[|ops| - 1].after
    else WrittenReg(ops[..|ops| - 1], idx, before)
  }

  lemma {:induction false} WrittenRegFirst(ops: seq<WriteOp>, idx: nat, before: Word)
    requires ops != []
    ensures WrittenReg(ops, idx, before)
         == WrittenReg(ops[1..], idx, if RegisterIndex(ops[0].addr) == idx then ops[0].after else before)
    decreases |ops|
  {
    hide RegisterIndex;
    if |ops| > 1 {
      assert ops[1..][..|ops| - 2] == ops[..|ops| - 1][1..];
      WrittenRegFirst(ops[..|ops| - 1], idx, before);
    }
  }

  /** All register operations name a register. */
  ghost predicate NameRegisters(ops: seq<WriteOp>, count: nat) {
    forall i :: 0 <= i < |ops| ==> RegisterIndex(ops[i].addr) < count
  }

  lemma {:induction false} ApplyRegsWritten(registers: seq<Word>, ops: seq<WriteOp>)
    ensures ApplyRegs(registers, ops).Some? <==> NameRegisters(ops, |registers|)
    ensures ApplyRegs(registers, ops).Some? ==>
              forall idx :: 0 <= idx < |registers| ==>
                ApplyRegs(registers, ops).value[idx] == WrittenReg(ops, idx, registers[idx])
    decreases |ops|
  {
    hide RegisterIndex;
    if ops != [] {
      if RegisterIndex(ops[0].addr) < |registers| {
        var next := registers[RegisterIndex(ops[0].addr) := ops[0].after];
        ApplyRegsWritten(next, ops[1..]);
        if NameRegisters(ops, |registers|) {
          forall i | 0 <= i < |ops[1..]| ensures RegisterIndex(ops[1..][i].addr) < |registers| {
            assert ops[1..][i] == ops[i + 1];
          }
        }
        if NameRegisters(ops[1..], |registers|) {
          forall i | 0 <= i < |ops| ensures RegisterIndex(ops[i].addr) < |registers| {
            if i > 0 { assert ops[1..][i - 1] == ops[i]; }
          }
        }
        forall idx | 0 <= idx < |registers|
          ensures WrittenReg(ops, idx, registers[idx]) == WrittenReg(ops[1..], idx, next[idx])
        {
          WrittenRegFirst(ops, idx, registers[idx]);
        }
      }
    }
  }

  /** A completed call: registers and memory hold what the last operation on them wrote, and the rest is as before. */
  ghost predicate CallMeans(e: SyscallEffects, m: Machine, next: Machine) {
    && next.halted == m.halted && |next.registers| == |m.registers|
    && (forall idx :: 0 <= idx < |m.registers| ==>
          next.registers[idx] == WrittenReg(e.regOps, idx, m.registers[idx]))
    && (forall a: WordAddr :: next.PeekMemory(a) == Written(e.memOps, a, m.PeekMemory(a)))
    && match e.nextPc
       case Some(pc) => next.pc == pc
       case None => Number(next.pc) == (Number(m.pc) + 4) % TWO32
  }

  lemma CallMeaning(e: SyscallEffects, m: Machine)
    requires |m.registers| == REG_COUNT
    ensures match ApplySyscall(e, m)
            case Done(next, _) => NameRegisters(e.regOps, REG_COUNT) && CallMeans(e, m, next)
            case Trapped(cause) => !NameRegisters(e.regOps, REG_COUNT) && cause == Panic
  {
    hide Number, NextPc, ApplyMem, ApplyRegs, ReadReg, Touches, NameRegisters, Written, WrittenReg;
    NextPcNumber(m.pc);
    ApplyRegsWritten(m.registers, e.regOps);
    if ApplySyscall(e, m).Done? {
      forall a: WordAddr ensures ApplySyscall(e, m).machine.PeekMemory(a) == Written(e.memOps, a, m.PeekMemory(a)) {
        ApplyMemWritten(m.memory, e.memOps, a);
      }
    }
  }

  /** ECALL halts for the code zero in x5; a known call is applied; an unknown one traps or, if the platform ignores it,
      changes nothing but the extra register. */
  ghost predicate EcallMeans(env: Env, m: Machine, r: Effect)
    requires |m.registers| == REG_COUNT
  {
    var code := m.registers[5];
    if Number(code) == 0 then
      r.Done? && Number(r.machine.pc) == 0 && r.machine == m.(pc := r.machine.pc, halted := true)
    else
      match env.syscall(code, m)
      case Some(e) =>
        if NameRegisters(e.regOps, REG_COUNT) then r.Done? && CallMeans(e, m, r.machine)
        else r.Trapped? && r.cause == Panic
      case None =>
        if env.platform.unsafeEcallNop then
          && r.Done? && r.machine.halted == m.halted && Number(r.machine.pc) == (Number(m.pc) + 4) % TWO32
          && r.machine.registers == m.registers[32 := 0]
          && forall a: WordAddr :: r.machine.PeekMemory(a) == m.PeekMemory(a)
        else r.Trapped? && r.cause == EcallError
  }

  lemma EcallMeaning(env: Env, insn: Instruction, m: Machine)
    requires |m.registers| == REG_COUNT && insn.kind.ECALL?
    ensures EcallMeans(env, m, Execute(env, insn, m))
  {
    hide Number, NextPc, ApplySyscall, ReadReg, WriteReg, WriteMem, LastStackWord, NameRegisters, CallMeans, Execute;
    ExecuteIs(env, insn, m);
    NotZero(m.registers[REG_ECALL]);
    NextPcNumber(m.pc);
    ZeroWord();
    if env.syscall(m.registers[REG_ECALL], m).Some? {
      CallMeaning(env.syscall(m.registers[REG_ECALL], m).value, m);
    }
  }

  // ---------- fetching ----------

  /** The instruction at a pc is the one whose distance in words from the base address, modulo 2^32, is its index. */
  lemma FetchMeaning(p: Program, pc: Word)
    ensures var i := (4 * (Number(pc) / 4) - Number(p.baseAddress)) % TWO32 / 4;
            Fetch(p, pc) == if i < |p.instructions| then Some(p.instructions[i]) else None
  {
    hide Number, WordDistance;
    DistanceNumber(p.baseAddress, pc);
  }

  lemma DistanceNumber(base: Word, pc: Word)
    ensures WordDistance(base, pc) == (4 * (Number(pc) / 4) - Number(base)) % TWO32 / 4
  {
    hide Number, Wrapped, WordStart;
    WordStartNumber(pc);
    WrappedNumber(Number(WordStart(pc)) - Number(base));
  }

  // ---------- all instructions ----------

  /** What one instruction does to the machine. */
  ghost predicate Means(env: Env, insn: Instruction, m: Machine, r: Effect)
    requires |m.registers| == REG_COUNT
  {
    match insn.kind
    case LB | LH | LW | LBU | LHU => LoadMeans(env.platform, insn, m, r)
    case SB | SH | SW => StoreMeans(env.platform, insn, m, r)
    case BEQ | BNE | BLT | BGE | BLTU | BGEU => BranchMeans(insn, m, r)
    case ECALL => EcallMeans(env, m, r)
    case INVALID => r == Trapped(IllegalInstruction(insn.raw))
    case _ => ComputeMeans(insn, m, r)
  }

  /** Every instruction does what it means, for every machine. */
  lemma ExecuteMeaning(env: Env, insn: Instruction, m: Machine)
    requires |m.registers| == REG_COUNT
    ensures Means(env, insn, m, Execute(env, insn, m))
  {
    hide Execute, LoadMeans, StoreMeans, BranchMeans, EcallMeans, ComputeMeans;
    if IsLoad(insn.kind) { LoadMeaning(env, insn, m); }
    else if IsStore(insn.kind) { StoreMeaning(env, insn, m); }
    else if IsBranch(insn.kind) { BranchMeaning(env, insn, m); }
    else if insn.kind.ECALL? { EcallMeaning(env, insn, m); }
    else if insn.kind.INVALID? { ExecuteIs(env, insn, m); }
    else { ComputeMeaning(env, insn, m); }
  }

  /** The outcome of an instruction without its uses. */
  function Outcome(trap: Option<TrapCause>, machine: Machine): Effect {
    if trap.Some? then Trapped(trap.value) else Done(machine, [])
  }

  function OutcomeOf(r: Effect): Effect { if r.Trapped? then r else Done(r.machine, []) }

  lemma ComputeMeansOutcome(insn: Instruction, m: Machine, r: Effect)
    requires |m.registers| == REG_COUNT && ComputeMeans(insn, m, r)
    ensures ComputeMeans(insn, m, OutcomeOf(r))
  {
    hide FollowingPc, Computes, OnlyRegister, Stands, Destination;
  }

  lemma ComputeOutcome(env: Env, insn: Instruction, m: Machine)
    requires |m.registers| == REG_COUNT
    ensures Category(insn.kind).Compute? ==> ComputeMeans(insn, m, OutcomeOf(ExecuteCompute(insn, m)))
  {
    hide Execute, ExecuteCompute, OutcomeOf, ComputeMeans;
    ExecuteIs(env, insn, m);
    if Category(insn.kind).Compute? {
      ComputeMeaning(env, insn, m);
      ComputeMeansOutcome(insn, m, ExecuteCompute(insn, m));
    }
  }

  lemma BranchMeansOutcome(insn: Instruction, m: Machine, r: Effect)
    requires |m.registers| == REG_COUNT && BranchMeans(insn, m, r)
    ensures BranchMeans(insn, m, OutcomeOf(r))
  {
    hide FollowingPc;
  }

  lemma BranchOutcome(env: Env, insn: Instruction, m: Machine)
    requires |m.registers| == REG_COUNT
    ensures IsBranch(insn.kind) ==> BranchMeans(insn, m, OutcomeOf(ExecuteBranch(insn, m)))
  {
    hide Execute, ExecuteBranch, OutcomeOf, BranchMeans;
    ExecuteIs(env, insn, m);
    if IsBranch(insn.kind) {
      BranchMeaning(env, insn, m);
      BranchMeansOutcome(insn, m, ExecuteBranch(insn, m));
    }
  }

  lemma LoadMeansOutcome(platform: Platform, insn: Instruction, m: Machine, r: Effect)
    requires |m.registers| == REG_COUNT && LoadMeans(platform, insn, m, r)
    ensures LoadMeans(platform, insn, m, OutcomeOf(r))
  {
    hide Number, MayAccess, AccessAligned, AccessAddress, LoadValue, Address, OnlyRegister, Destination;
  }

  lemma LoadOutcome(env: Env, insn: Instruction, m: Machine)
    requires |m.registers| == REG_COUNT
    ensures IsLoad(insn.kind) ==> LoadMeans(env.platform, insn, m, OutcomeOf(ExecuteLoad(env, insn, m)))
  {
    hide Execute, ExecuteLoad, OutcomeOf, LoadMeans;
    ExecuteIs(env, insn, m);
    if IsLoad(insn.kind) {
      LoadMeaning(env, insn, m);
      LoadMeansOutcome(env.platform, insn, m, ExecuteLoad(env, insn, m));
    }
  }

  lemma StoreMeansOutcome(platform: Platform, insn: Instruction, m: Machine, r: Effect)
    requires |m.registers| == REG_COUNT && StoreMeans(platform, insn, m, r)
    ensures StoreMeans(platform, insn, m, OutcomeOf(r))
  {
    hide Number, MayAccess, AccessAligned, AccessAddress, StoreValue, Address;
  }

  lemma StoreOutcome(env: Env, insn: Instruction, m: Machine)
    requires |m.registers| == REG_COUNT
    ensures IsStore(insn.kind) ==> StoreMeans(env.platform, insn, m, OutcomeOf(ExecuteStore(env, insn, m)))
  {
    hide Execute, ExecuteStore, OutcomeOf, StoreMeans;
    ExecuteIs(env, insn, m);
    if IsStore(insn.kind) {
      StoreMeaning(env, insn, m);
      StoreMeansOutcome(env.platform, insn, m, ExecuteStore(env, insn, m));
    }
  }

  lemma EcallMeansOutcome(env: Env, m: Machine, r: Effect)
    requires |m.registers| == REG_COUNT && EcallMeans(env, m, r)
    ensures EcallMeans(env, m, OutcomeOf(r))
  {
    hide Number, CallMeans, NameRegisters;
  }

  lemma EcallOutcome(env: Env, m: Machine)
    requires |m.registers| == REG_COUNT
    ensures EcallMeans(env, m, OutcomeOf(ExecuteEcall(env, m)))
  {
    hide Execute, ExecuteEcall, OutcomeOf, EcallMeans;
    var call := Instruction(ECALL, 0, 0, 0, 0, 0);
    ExecuteIs(env, call, m);
    EcallMeaning(env, call, m);
    EcallMeansOutcome(env, m, ExecuteEcall(env, m));
  }

  /** A machine halts exactly at an ECALL with the code zero in x5. */
  lemma HaltMeaning(env: Env, insn: Instruction, m: Machine)
    requires |m.registers| == REG_COUNT && Execute(env, insn, m).Done?
    ensures Execute(env, insn, m).machine.halted <==> m.halted || (insn.kind.ECALL? && Number(m.registers[5]) == 0)
  {
    hide Execute, Number, FollowingPc, Computes, MayAccess, AccessAligned, AccessAddress, LoadValue, StoreValue;
    ExecuteMeaning(env, insn, m);
  }

  // ---------- the uses of registers and memory ----------

  /** A read of register idx, which lies at word address 64 * idx, and a write to it. */
  function Reads(m: Machine, idx: nat, sub: nat): Touch
    requires idx < |m.registers|
  {
    Touch(64 * idx, m.registers[idx], m.registers[idx], sub)
  }

  function WritesTo(m: Machine, next: Machine, idx: nat): Touch
    requires idx < |m.registers| && idx < |next.registers|
  {
    Touch(64 * idx, m.registers[idx], next.registers[idx], 2)
  }

  function Changes(m: Machine, next: Machine, a: WordAddr): Touch { Touch(a, m.PeekMemory(a), next.PeekMemory(a), 3) }

  /** The operations of a system call are uses in their order. */
  ghost predicate UsesOf(ops: seq<WriteOp>, sub: nat, touches: seq<Touch>) {
    && |touches| == |ops|
    && forall i :: 0 <= i < |ops| ==> touches[i] == Touch(ops[i].addr, ops[i].before, ops[i].after, sub)
  }

  /** What a completed instruction uses, in its order: the sources in subcycles 0 and 1, the destination in subcycle 2,
      and memory in subcycle 3. */
  ghost predicate UsesMean(env: Env, insn: Instruction, m: Machine, next: Machine, touches: seq<Touch>)
    requires |m.registers| == |next.registers| == REG_COUNT
  {
    var rs1, rs2, rd := Reads(m, insn.rs1, 0), Reads(m, insn.rs2, 1), WritesTo(m, next, Destination(insn));
    match insn.kind
    case JAL => touches == [rd]
    case ADDI | XORI | ORI | ANDI | SLLI | SRLI | SRAI | SLTI | SLTIU | JALR => touches == [rs1, rd]
    case BEQ | BNE | BLT | BGE | BLTU | BGEU => touches == [rs1, rs2]
    case LB | LH | LW | LBU | LHU => touches == [rs1, Changes(m, next, AccessAddress(insn, m) / 4), rd]
    case SB | SH | SW => touches == [rs1, rs2, Changes(m, next, AccessAddress(insn, m) / 4)]
    case ECALL => EcallUses(env, m, next, touches)
    case INVALID => false
    case _ => touches == [rs1, rs2, rd]
  }

  ghost predicate EcallUses(env: Env, m: Machine, next: Machine, touches: seq<Touch>)
    requires |m.registers| == |next.registers| == REG_COUNT
  {
    var code, arg := Reads(m, 5, 0), Reads(m, 10, 1);
    if Number(m.registers[5]) == 0 then touches == [code, arg]
    else
      match env.syscall(m.registers[5], m)
      case Some(e) =>
        && |touches| == 1 + |e.regOps| + |e.memOps| && touches[0] == code
        && UsesOf(e.regOps, 2, touches[1..1 + |e.regOps|]) && UsesOf(e.memOps, 3, touches[1 + |e.regOps|..])
      case None =>
        touches == [code, arg, WritesTo(m, next, 32),
                    Changes(m, next, (Number(env.platform.stack.end) - 4) % TWO32 / 4)]
  }

  lemma RegisterPlaces(m: Machine, idx: nat, sub: nat)
    requires |m.registers| == REG_COUNT && idx < REG_COUNT
    ensures ReadReg(m, idx, sub) == Reads(m, idx, sub)
  {
  }

  lemma WritePlaces(m: Machine, next: Machine, idx: nat)
    requires |m.registers| == |next.registers| == REG_COUNT && idx < REG_COUNT
    ensures WriteReg(m, idx, next.registers[idx]) == WritesTo(m, next, idx)
  {
  }

  lemma DestinationIs(insn: Instruction)
    ensures !IsBranch(insn.kind) && !IsStore(insn.kind) ==> RdInternal(insn) == Destination(insn)
  {
  }

  lemma ComputeUses(env: Env, insn: Instruction, m: Machine)
    requires |m.registers| == REG_COUNT && Category(insn.kind).Compute? && ExecuteCompute(insn, m).Done?
    ensures var r := ExecuteCompute(insn, m);
            |r.machine.registers| == REG_COUNT && UsesMean(env, insn, m, r.machine, r.touches)
  {
    hide ComputePc, ComputeOut, Aligned, ReadReg, WriteReg, Reads, WritesTo, EcallUses, Changes, AccessAddress;
    var r := ExecuteCompute(insn, m);
    RegisterPlaces(m, insn.rs1, 0);
    RegisterPlaces(m, insn.rs2, 1);
    DestinationIs(insn);
    WritePlaces(m, r.machine, Destination(insn));
  }

  lemma BranchUses(env: Env, insn: Instruction, m: Machine)
    requires |m.registers| == REG_COUNT && IsBranch(insn.kind) && ExecuteBranch(insn, m).Done?
    ensures var r := ExecuteBranch(insn, m);
            |r.machine.registers| == REG_COUNT && UsesMean(env, insn, m, r.machine, r.touches)
  {
    hide BranchPc, Aligned, ReadReg, Reads, WritesTo, EcallUses, Changes, AccessAddress;
    RegisterPlaces(m, insn.rs1, 0);
    RegisterPlaces(m, insn.rs2, 1);
  }

  lemma LoadUses(env: Env, insn: Instruction, m: Machine)
    requires |m.registers| == REG_COUNT && IsLoad(insn.kind) && ExecuteLoad(env, insn, m).Done?
    ensures var r := ExecuteLoad(env, insn, m);
            |r.machine.registers| == REG_COUNT && UsesMean(env, insn, m, r.machine, r.touches)
  {
    hide Number, Address, AccessAddress, LoadValue, Misaligned, NextPc, Platform.CanRead, ReadReg, WriteReg, Reads,
         WritesTo, EcallUses, RdInternal, Destination;
    var r := ExecuteLoad(env, insn, m);
    AddressNumber(insn, m);
    RegisterPlaces(m, insn.rs1, 0);
    DestinationIs(insn);
    WritePlaces(m, r.machine, Destination(insn));
  }

  lemma StoreUses(env: Env, insn: Instruction, m: Machine)
    requires |m.registers| == REG_COUNT && IsStore(insn.kind) && ExecuteStore(env, insn, m).Done?
    ensures var r := ExecuteStore(env, insn, m);
            |r.machine.registers| == REG_COUNT && UsesMean(env, insn, m, r.machine, r.touches)
  {
    hide Number, Address, AccessAddress, StoreValue, Misaligned, NextPc, Platform.CanWrite, ReadReg, Reads, WritesTo,
         EcallUses;
    AddressNumber(insn, m);
    RegisterPlaces(m, insn.rs1, 0);
    RegisterPlaces(m, insn.rs2, 1);
  }

  lemma LastStackNumber(p: Platform)
    ensures LastStackWord(p) == (Number(p.stack.end) - 4) % TWO32 / 4
  {
    hide Number, Wrapped;
    WrappedNumber(Number(p.stack.end) - 4);
  }

  lemma CallUses(e: SyscallEffects, m: Machine)
    requires |m.registers| == REG_COUNT && ApplySyscall(e, m).Done?
    ensures var touches, n := ApplySyscall(e, m).touches, |e.regOps|;
            && |touches| == 1 + n + |e.memOps| && touches[0] == Reads(m, 5, 0)
            && UsesOf(e.regOps, 2, touches[1..1 + n]) && UsesOf(e.memOps, 3, touches[1 + n..])
  {
    hide ApplyMem, ApplyRegs, NextPc, ReadReg, Reads;
    var touches, n := ApplySyscall(e, m).touches, |e.regOps|;
    RegisterPlaces(m, 5, 0);
    assert touches[1..1 + n] == Touches(e.regOps, 2);
    assert touches[1 + n..] == Touches(e.memOps, 3);
  }

  lemma EcallUsesMeaning(env: Env, m: Machine)
    requires |m.registers| == REG_COUNT && ExecuteEcall(env, m).Done?
    ensures var r := ExecuteEcall(env, m);
            |r.machine.registers| == REG_COUNT && EcallUses(env, m, r.machine, r.touches)
  {
    hide Number, NextPc, ApplySyscall, ReadReg, WriteReg, LastStackWord, Reads, WritesTo, UsesOf;
    var r := ExecuteEcall(env, m);
    NotZero(m.registers[5]);
    RegisterPlaces(m, 5, 0);
    RegisterPlaces(m, 10, 1);
    if env.syscall(m.registers[5], m).Some? && m.registers[5] != 0 {
      CallUses(env.syscall(m.registers[5], m).value, m);
      CallRegisters(env.syscall(m.registers[5], m).value, m);
    } else if m.registers[5] != 0 {
      LastStackNumber(env.platform);
      WritePlaces(m, r.machine, 32);
    }
  }

  lemma CallRegisters(e: SyscallEffects, m: Machine)
    requires |m.registers| == REG_COUNT && ApplySyscall(e, m).Done?
    ensures |ApplySyscall(e, m).machine.registers| == REG_COUNT
  {
    hide ApplyMem, ApplyRegs, NextPc, ReadReg, Touches;
  }

  /** Every completed instruction uses exactly the registers and the memory word that it means to, with their values
      before and after. */
  lemma UsesMeaning(env: Env, insn: Instruction, m: Machine)
    requires |m.registers| == REG_COUNT && Execute(env, insn, m).Done?
    ensures var r := Execute(env, insn, m);
            |r.machine.registers| == REG_COUNT && UsesMean(env, insn, m, r.machine, r.touches)
  {
    hide ExecuteCompute, ExecuteBranch, ExecuteLoad, ExecuteStore, ExecuteEcall, Reads, WritesTo, Changes, EcallUses,
         Execute, AccessAddress, Destination;
    ExecuteIs(env, insn, m);
    if IsLoad(insn.kind) { LoadUses(env, insn, m); }
    else if IsStore(insn.kind) { StoreUses(env, insn, m); }
    else if IsBranch(insn.kind) { BranchUses(env, insn, m); }
    else if insn.kind.ECALL? { EcallUsesMeaning(env, m); }
    else if !insn.kind.INVALID? { ComputeUses(env, insn, m); }
  }

  // ---------- one step ----------

  /** A step fetches and executes one instruction; a pc without an instruction and an instruction that jumps to itself
      without halting are errors. */
  lemma StepMeaning(env: Env, p: Program, m: Machine)
    requires |m.registers| == REG_COUNT
    ensures match Fetch(p, m.pc)
            case None => Step(env, p, m) == Trapped(InstructionAccessFault)
            case Some(insn) =>
              var r := Execute(env, insn, m);
              if r.Done? && Number(r.machine.pc) == 4 * (Number(m.pc) / 4) && !r.machine.halted
              then Step(env, p, m) == Trapped(StuckInLoop)
              else Step(env, p, m) == r
  {
    hide Number, Execute, Fetch, WordStart;
    WordStartNumber(m.pc);
    if Fetch(p, m.pc).Some? && Execute(env, Fetch(p, m.pc).value, m).Done? {
      var next := Execute(env, Fetch(p, m.pc).value, m).machine;
      if Number(next.pc) == Number(WordStart(m.pc)) { NumberInjective(next.pc, WordStart(m.pc)); }
    }
  }

  lemma WordStartNumber(pc: Word)
    ensures Number(WordStart(pc)) == 4 * (Number(pc) / 4)
  {
    hide Number, Wrapped;
    NumberBound(pc);
    WrappedNumber(4 * Waddr(pc));
  }
}

/** The instruction set of the emulator: words, addresses, instructions, and the effect of one instruction on the
    machine, with the list of registers and memory words it touches. */
module Rv32im {
  import opened Wrappers
  import opened Words

  /** The address of a word: a byte address without its two lowest bits, as a number. */
  type WordAddr = nat

  type RegIdx = n: nat | n < 32 witness 0

  const REG_COUNT := 33
  const RD_NULL := 32

  function Waddr(addr: Word): WordAddr { Number(addr) / 4 }

  /** Registers live at virtual addresses that are multiples of 256. */
  function RegisterVma(idx: nat): nat { 256 * idx }

  function RegAddr(idx: nat): WordAddr { RegisterVma(idx) / 4 }

  /** `register_index` of the byte address of a word. */
  function RegisterIndex(a: WordAddr): nat { 4 * a / 256 }

  predicate IsRegAddr(a: WordAddr) { RegisterIndex(a) < REG_COUNT && RegAddr(RegisterIndex(a)) == a }

  lemma RegAddrIs(idx: nat)
    requires idx < REG_COUNT
    ensures IsRegAddr(RegAddr(idx)) && RegisterIndex(RegAddr(idx)) == idx
  {
  }

  // ---------- instructions ----------

  datatype InsnKind =
    | INVALID | ADD | SUB | XOR | OR | AND | SLL | SRL | SRA | SLT | SLTU
    | ADDI | XORI | ORI | ANDI | SLLI | SRLI | SRAI | SLTI | SLTIU
    | BEQ | BNE | BLT | BGE | BLTU | BGEU | JAL | JALR
    | MUL | MULH | MULHSU | MULHU | DIV | DIVU | REM | REMU
    | LB | LH | LW | LBU | LHU | SB | SH | SW | ECALL

  datatype InsnCategory = Compute | Branch | Load | Store | System | Invalid

  datatype InsnFormat = R | I | S | B | J

  /** The immediate is the two's complement of the signed immediate of the source. */
  datatype Instruction = Instruction(kind: InsnKind, rs1: RegIdx, rs2: RegIdx, rd: RegIdx, imm: Word, raw: Word)

  function Category(kind: InsnKind): InsnCategory {
    match kind
    case INVALID => Invalid
    case BEQ | BNE | BLT | BGE | BLTU | BGEU => Branch
    case LB | LH | LW | LBU | LHU => Load
    case SB | SH | SW => Store
    case ECALL => System
    case _ => Compute
  }

  function Format(kind: InsnKind): InsnFormat {
    match kind
    case ADD | SUB | XOR | OR | AND | SLL | SRL | SRA | SLT | SLTU => R
    case MUL | MULH | MULHSU | MULHU | DIV | DIVU | REM | REMU => R
    case BEQ | BNE | BLT | BGE | BLTU | BGEU => B
    case JAL => J
    case SB | SH | SW => S
    case _ => I
  }

  /** `rd_internal`: writes to x0, and instructions without a destination, go to the extra register. */
  function RdInternal(insn: Instruction): (r: nat)
    ensures 1 <= r < REG_COUNT
    ensures r == insn.rd <==> insn.rd != 0 && !Format(insn.kind).S? && !Format(insn.kind).B?
  {
    if !Format(insn.kind).S? && !Format(insn.kind).B? && insn.rd != 0 then insn.rd else RD_NULL
  }

  // ---------- arithmetic on words ----------

  function WrappingAdd(a: Word, b: Word): Word { Wrapped(Number(a) + Number(b)) }

  /** The address of the next instruction. */
  function NextPc(pc: Word): Word { Wrapped(Number(pc) + 4) }

  /** JALR clears the lowest bit of its target. */
  function JumpTarget(a: Word): Word { And(a, 0xFFFF_FFFE) }

  const TWO63 := 0x8000_0000_0000_0000
  const TWO64 := 0x1_0000_0000_0000_0000

  /** A product in signed and in unsigned 64-bit arithmetic. */
  function SignedProduct(x: int, y: int): int { (x * y + TWO63) % TWO64 - TWO63 }

  function UnsignedProduct(x: nat, y: nat): int { x * y % TWO64 }

  /** The low word of a 64-bit number shifted down by 32 bits. */
  function HighWord(z: int): Word { Wrapped(z / TWO32) }

  function Abs(x: int): nat { if x < 0 then -x else x }

  /** Division that rounds towards zero, and its remainder. */
  function TruncatedDiv(x: int, y: int): int
    requires y != 0
  {
    var q := Abs(x) / Abs(y);
    if (x < 0) != (y < 0) then -q else q
  }

  function TruncatedRem(x: int, y: int): int
    requires y != 0
  {
    var r := Abs(x) % Abs(y);
    if x < 0 then -r else r
  }

  lemma NotZero(b: Word)
    ensures b == 0 <==> Number(b) == 0
    ensures b == 0 <==> Signed(b) == 0
  {
    hide Number;
    NumberBound(b);
    ZeroOrMore(b);
  }

  function Flag(b: bool): Word { if b then 1 else 0 }

  /** Shift amounts are taken modulo the width. */
  function ShiftAmount(b: Word): (n: Word)
    ensures n < 32
  {
    And(b, 0x1f)
  }

  function UsesImmediate(kind: InsnKind): bool {
    kind in {ADDI, XORI, ORI, ANDI, SLLI, SRLI, SRAI, SLTI, SLTIU, JALR}
  }

  /** The result of a compute instruction other than a jump; b is the immediate or the second register. */
  function Alu(kind: InsnKind, a: Word, b: Word): Word {
    match kind
    case ADD | ADDI => WrappingAdd(a, b)
    case SUB => Wrapped(Number(a) - Number(b))
    case XOR | XORI => Xor(a, b)
    case OR | ORI => Or(a, b)
    case AND | ANDI => And(a, b)
    case SLL | SLLI => ShiftLeft(a, ShiftAmount(b))
    case SRL | SRLI => ShiftRight(a, ShiftAmount(b))
    case SRA | SRAI => ShiftRightArithmetic(a, ShiftAmount(b))
    case SLT | SLTI => Flag(SignedLess(a, b))
    case SLTU | SLTIU => Flag(Less(a, b))
    case MUL => Wrapped(Number(a) * Number(b))
    case MULH => HighWord(SignedProduct(Signed(a), Signed(b)))
    case MULHSU => HighWord(SignedProduct(Signed(a), Number(b)))
    case MULHU => HighWord(UnsignedProduct(Number(a), Number(b)))
    case DIV => if b == 0 then 0xFFFF_FFFF else (NotZero(b); Wrapped(TruncatedDiv(Signed(a), Signed(b))))
    case DIVU => if b == 0 then 0xFFFF_FFFF else (NotZero(b); Wrapped(Number(a) / Number(b)))
    case REM => if b == 0 then a else (NotZero(b); Wrapped(TruncatedRem(Signed(a), Signed(b))))
    case REMU => if b == 0 then a else (NotZero(b); Wrapped(Number(a) % Number(b)))
    case _ => 0
  }

  function Taken(kind: InsnKind, a: Word, b: Word): bool {
    match kind
    case BEQ => a == b
    case BNE => a != b
    case BLT => SignedLess(a, b)
    case BGE => !SignedLess(a, b)
    case BLTU => Less(a, b)
    case _ => !Less(a, b)
  }

  predicate Aligned(addr: Word) { And(addr, 3) == 0 }

  lemma AlignedNumber(addr: Word)
    ensures Aligned(addr) <==> Number(addr) % 4 == 0
  {
    hide Number, And;
    LowBits(addr);
    ZeroOrMore(And(addr, 3));
  }

  // ---------- sub-word memory access ----------

  function Shift(addr: Word): (n: Word)
    ensures n < 32
  {
    8 * (addr & 3)
  }

  /** Half words must be 2-aligned and words 4-aligned. */
  function Misaligned(kind: InsnKind, addr: Word): bool {
    (kind in {LH, LHU, SH} && addr & 1 != 0) || (kind in {LW, SW} && addr & 3 != 0)
  }

  function LoadValue(kind: InsnKind, data: Word, addr: Word): Word {
    match kind
    case LB => var out := (data >> Shift(addr)) & 0xff; if out & 0x80 != 0 then out | 0xffffff00 else out
    case LH => var out := (data >> Shift(addr)) & 0xffff; if out & 0x8000 != 0 then out | 0xffff0000 else out
    case LBU => (data >> Shift(addr)) & 0xff
    case LHU => (data >> Shift(addr)) & 0xffff
    case _ => data
  }

  /** The masked bits of a word, shifted to their place, are replaced by those of the value. */
  function Masked(data: Word, mask: Word, value: Word, shift: Word): Word
    requires shift < 32
  {
    (data ^ (data & (mask << shift))) | ((value & mask) << shift)
  }

  function StoreValue(kind: InsnKind, data: Word, addr: Word, value: Word): Word {
    match kind
    case SB => Masked(data, 0xff, value, Shift(addr))
    case SH => Masked(data, 0xffff, value, Shift(addr))
    case _ => value
  }

  // ---------- the machine ----------

  datatype Range = Range(start: Word, end: Word)
  {
    predicate Contains(a: Word) { !Less(a, start) && Less(a, end) }
  }

  function WholeWord(a: Word): Word { a & !3 }

  datatype Platform = Platform(rom: Range, progData: set<Word>, publicIo: Range, stack: Range, heap: Range,
                               hints: Range,
                               unsafeEcallNop: bool)
  {
    predicate IsRam(a: Word) { stack.Contains(a) || heap.Contains(a) || WholeWord(a) in progData }

    predicate CanWrite(a: Word) { IsRam(a) || publicIo.Contains(a) || hints.Contains(a) }

    predicate CanRead(a: Word) { CanWrite(a) }
  }

  datatype Machine = Machine(pc: Word, registers: seq<Word>, memory: map<WordAddr, Word>, halted: bool)
  {
    /** Memory that was never written reads as zero. */
    function PeekMemory(a: WordAddr): Word { if a in memory then memory[a] else 0 }
  }

  datatype WriteOp = WriteOp(addr: WordAddr, before: Word, after: Word, previousCycle: nat)

  datatype SyscallEffects = SyscallEffects(memOps: seq<WriteOp>, regOps: seq<WriteOp>, nextPc: Option<Word>)

  /** A system call is a function of the code and of the machine; None is an unknown code. */
  datatype Env = Env(platform: Platform, syscall: (Word, Machine) -> Option<SyscallEffects>)

  datatype TrapCause =
    | InstructionAddressMisaligned | InstructionAccessFault | IllegalInstruction(raw: Word) | LoadAddressMisaligned
    | LoadAccessFault(addr: Word) | StoreAddressMisaligned(addr: Word) | StoreAccessFault
    | EcallError | StuckInLoop | Panic

  /** One use of a register or a memory word within an instruction, and its subcycle. */
  datatype Touch = Touch(addr: WordAddr, before: Word, after: Word, sub: nat)

  datatype Effect = Done(machine: Machine, touches: seq<Touch>) | Trapped(cause: TrapCause)

  const SUBCYCLE_RS1 := 0
  const SUBCYCLE_RS2 := 1
  const SUBCYCLE_RD := 2
  const SUBCYCLE_MEM := 3
  const SUBCYCLES_PER_INSN := 4

  ghost predicate ValidMachine(m: Machine) { |m.registers| == REG_COUNT && m.registers[0] == 0 && Aligned(m.pc) }

  function ReadReg(m: Machine, idx: nat, sub: nat): Touch
    requires idx < REG_COUNT == |m.registers|
  {
    Touch(RegAddr(idx), m.registers[idx], m.registers[idx], sub)
  }

  function WriteReg(m: Machine, idx: nat, value: Word): Touch
    requires idx < REG_COUNT == |m.registers|
  {
    Touch(RegAddr(idx), m.registers[idx], value, SUBCYCLE_RD)
  }

  function WriteMem(m: Machine, a: WordAddr, value: Word): Touch {
    Touch(a, m.PeekMemory(a), value, SUBCYCLE_MEM)
  }

  function ComputePc(insn: Instruction, m: Machine): Word
    requires |m.registers| == REG_COUNT
  {
    if insn.kind.JAL? then WrappingAdd(m.pc, insn.imm)
    else if insn.kind.JALR? then JumpTarget(WrappingAdd(m.registers[insn.rs1], insn.imm))
    else NextPc(m.pc)
  }

  function ComputeOut(insn: Instruction, m: Machine): Word
    requires |m.registers| == REG_COUNT
  {
    if insn.kind.JAL? || insn.kind.JALR? then NextPc(m.pc)
    else Alu(insn.kind, m.registers[insn.rs1], if UsesImmediate(insn.kind) then insn.imm else m.registers[insn.rs2])
  }

  function ComputeInputs(insn: Instruction, m: Machine): seq<Touch>
    requires |m.registers| == REG_COUNT
  {
    if insn.kind.JAL? then []
    else if UsesImmediate(insn.kind) then [ReadReg(m, insn.rs1, SUBCYCLE_RS1)]
    else [ReadReg(m, insn.rs1, SUBCYCLE_RS1), ReadReg(m, insn.rs2, SUBCYCLE_RS2)]
  }

  lemma ComputeParts(insn: Instruction, m: Machine)
    requires |m.registers| == REG_COUNT
    ensures insn.kind.JAL? ==> ComputePc(insn, m) == WrappingAdd(m.pc, insn.imm) && ComputeOut(insn, m) == NextPc(m.pc)
    ensures insn.kind.JALR? ==>
              ComputePc(insn, m) == JumpTarget(WrappingAdd(m.registers[insn.rs1], insn.imm)) &&
                  ComputeOut(insn, m) == NextPc(m.pc)
    ensures !insn.kind.JAL? && !insn.kind.JALR? ==>
              ComputePc(insn, m) == NextPc(m.pc)
              && ComputeOut(insn, m)
                  == Alu(insn.kind, m.registers[insn.rs1], if UsesImmediate(insn.kind) then insn.imm
                         else m.registers[insn.rs2])
  {
    hide Alu, WrappingAdd, NextPc, JumpTarget;
  }

  lemma AluAddi(a: Word, b: Word)
    ensures Alu(ADDI, a, b) == WrappingAdd(a, b)
  {
    hide WrappingAdd;
  }

  function ExecuteCompute(insn: Instruction, m: Machine): Effect
    requires |m.registers| == REG_COUNT && Category(insn.kind).Compute?
  {
    var rd, out := RdInternal(insn), ComputeOut(insn, m);
    if !Aligned(ComputePc(insn, m)) then Trapped(InstructionAddressMisaligned)
    else Done(m.(pc := ComputePc(insn, m), registers := m.registers[rd := out]),
              ComputeInputs(insn, m) + [WriteReg(m, rd, out)])
  }

  function BranchPc(insn: Instruction, m: Machine): Word
    requires |m.registers| == REG_COUNT
  {
    if Taken(insn.kind, m.registers[insn.rs1], m.registers[insn.rs2]) then WrappingAdd(m.pc, insn.imm) else NextPc(m.pc)
  }

  function ExecuteBranch(insn: Instruction, m: Machine): Effect
    requires |m.registers| == REG_COUNT
  {
    if !Aligned(BranchPc(insn, m)) then Trapped(InstructionAddressMisaligned)
    else Done(m.(pc := BranchPc(insn, m)), [ReadReg(m, insn.rs1, SUBCYCLE_RS1), ReadReg(m, insn.rs2, SUBCYCLE_RS2)])
  }

  /** The byte address of a load or a store. */
  function Address(insn: Instruction, m: Machine): Word
    requires |m.registers| == REG_COUNT
  {
    WrappingAdd(m.registers[insn.rs1], insn.imm)
  }

  function ExecuteLoad(env: Env, insn: Instruction, m: Machine): Effect
    requires |m.registers| == REG_COUNT
  {
    var addr, rd := Address(insn, m), RdInternal(insn);
    if !env.platform.CanRead(addr) then Trapped(LoadAccessFault(addr))
    else if Misaligned(insn.kind, addr) then Trapped(LoadAddressMisaligned)
    else
      var data := m.PeekMemory(Waddr(addr));
      var out := LoadValue(insn.kind, data, addr);
      Done(m.(pc := NextPc(m.pc), registers := m.registers[rd := out]),
           [ReadReg(m, insn.rs1, SUBCYCLE_RS1), WriteMem(m, Waddr(addr), data), WriteReg(m, rd, out)])
  }

  function ExecuteStore(env: Env, insn: Instruction, m: Machine): Effect
    requires |m.registers| == REG_COUNT
  {
    var addr := Address(insn, m);
    if !env.platform.CanWrite(addr) then Trapped(StoreAccessFault)
    else if Misaligned(insn.kind, addr) then Trapped(StoreAddressMisaligned(addr))
    else
      var data := StoreValue(insn.kind, m.PeekMemory(Waddr(addr)), addr, m.registers[insn.rs2]);
      Done(m.(pc := NextPc(m.pc), memory := m.memory[Waddr(addr) := data]),
           [ReadReg(m, insn.rs1, SUBCYCLE_RS1), ReadReg(m, insn.rs2, SUBCYCLE_RS2), WriteMem(m, Waddr(addr), data)])
  }

  const REG_ECALL := 5
  const REG_ARG0 := 10
  const ECALL_HALT: Word := 0

  function ApplyMem(memory: map<WordAddr, Word>, ops: seq<WriteOp>): map<WordAddr, Word>
    decreases |ops|
  {
    if ops == [] then memory else ApplyMem(memory[ops[0].addr := ops[0].after], ops[1..])
  }

  /** None is an index past the last register. */
  function ApplyRegs(registers: seq<Word>, ops: seq<WriteOp>): (r: Option<seq<Word>>)
    ensures r.Some? ==> |r.value| == |registers|
    decreases |ops|
  {
    if ops == [] then Some(registers)
    else if RegisterIndex(ops[0].addr) >= |registers| then None
    else ApplyRegs(registers[RegisterIndex(ops[0].addr) := ops[0].after], ops[1..])
  }

  function Touches(ops: seq<WriteOp>, sub: nat): (r: seq<Touch>)
    ensures |r| == |ops| && forall i :: 0 <= i < |r| ==> r[i] == Touch(ops[i].addr, ops[i].before, ops[i].after, sub)
  {
    seq(|ops|, i requires 0 <= i < |ops| => Touch(ops[i].addr, ops[i].before, ops[i].after, sub))
  }

  function ApplySyscall(e: SyscallEffects, m: Machine): Effect
    requires |m.registers| == REG_COUNT
  {
    match ApplyRegs(m.registers, e.regOps)
    case None => Trapped(Panic)
    case Some(registers) =>
      Done(m.(memory := ApplyMem(m.memory, e.memOps), registers := registers,
              pc := if e.nextPc.Some? then e.nextPc.value else NextPc(m.pc)),
           [ReadReg(m, REG_ECALL, SUBCYCLE_RS1)] + Touches(e.regOps, SUBCYCLE_RD) + Touches(e.memOps, SUBCYCLE_MEM))
  }

  function LastStackWord(p: Platform): WordAddr { Waddr(Wrapped(Number(p.stack.end) - 4)) }

  /** An ignored system call still reads two registers, writes the extra register and rewrites the last stack word. */
  function IgnoreSyscall(env: Env, m: Machine): Effect
    requires |m.registers| == REG_COUNT
  {
    var a := LastStackWord(env.platform);
    Done(m.(pc := NextPc(m.pc), registers := m.registers[RD_NULL := 0], memory := m.memory[a := m.PeekMemory(a)]),
         [ReadReg(m, REG_ECALL, SUBCYCLE_RS1), ReadReg(m, REG_ARG0, SUBCYCLE_RS2), WriteReg(m, RD_NULL, 0),
          WriteMem(m, a, m.PeekMemory(a))])
  }

  function ExecuteEcall(env: Env, m: Machine): Effect
    requires |m.registers| == REG_COUNT
  {
    var code := m.registers[REG_ECALL];
    if code == ECALL_HALT then
      Done(m.(pc := 0, halted := true), [ReadReg(m, REG_ECALL, SUBCYCLE_RS1), ReadReg(m, REG_ARG0, SUBCYCLE_RS2)])
    else
      match env.syscall(code, m)
      case Some(e) => ApplySyscall(e, m)
      case None => if env.platform.unsafeEcallNop then IgnoreSyscall(env, m) else Trapped(EcallError)
  }

  /** One instruction. */
  function Execute(env: Env, insn: Instruction, m: Machine): Effect
    requires |m.registers| == REG_COUNT
  {
    match Category(insn.kind)
    case Compute => ExecuteCompute(insn, m)
    case Branch => ExecuteBranch(insn, m)
    case Load => ExecuteLoad(env, insn, m)
    case Store => ExecuteStore(env, insn, m)
    case System => ExecuteEcall(env, m)
    case Invalid => Trapped(IllegalInstruction(insn.raw))
  }

  /** The first byte of the word that holds an address. */
  function WordStart(addr: Word): Word { Wrapped(4 * Waddr(addr)) }

  datatype Program = Program(entry: Word, baseAddress: Word, instructions: seq<Instruction>)

  /** How many words the pc is past the base address. */
  function WordDistance(base: Word, pc: Word): nat { Number(Wrapped(Number(WordStart(pc)) - Number(base))) / 4 }

  /** `fetch`: the instruction whose index is the word distance of the pc from the base address. */
  function Fetch(p: Program, pc: Word): Option<Instruction> {
    var idx := WordDistance(p.baseAddress, pc);
    if idx < |p.instructions| then Some(p.instructions[idx]) else None
  }

  /** `step` of the virtual machine: fetch, execute, and the check for an instruction that jumps to itself. */
  function Step(env: Env, p: Program, m: Machine): Effect
    requires |m.registers| == REG_COUNT
  {
    match Fetch(p, m.pc)
    case None => Trapped(InstructionAccessFault)
    case Some(insn) =>
      match Execute(env, insn, m)
      case Trapped(cause) => Trapped(cause)
      case Done(next, touches) =>
        if next.pc == WordStart(m.pc) && !next.halted then Trapped(StuckInLoop) else Done(next, touches)
  }

  /** The machine after one step; None is an error or a machine that has halted. */
  function WordStep(env: Env, p: Program, m: Machine): Option<Machine>
    requires |m.registers| == REG_COUNT
  {
    if m.halted then None
    else
      match Step(env, p, m)
      case Trapped(_) => None
      case Done(next, _) => Some(next)
  }

  /** The machine after n completed steps. */
  function WordRun(env: Env, p: Program, m: Machine, n: nat): Option<Machine>
    decreases n
  {
    if n == 0 then Some(m)
    else if |m.registers| != REG_COUNT then None
    else
      match WordStep(env, p, m)
      case None => None
      case Some(next) => WordRun(env, p, next, n - 1)
  }
}

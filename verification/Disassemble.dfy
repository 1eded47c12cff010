/** LUI and AUIPC are rewritten to ADDI on x0 when a program is loaded.  The rewritten program behaves like the
    original one, with LUI and AUIPC as in section 2.4 of the RISC-V Unprivileged ISA, version 20191213. */
module Disassemble {
  import opened Wrappers
  import opened MemoryArgument
  import opened Words
  import opened Rv32im
  import opened Traces
  import opened EmulatorRuns

  /** A decoded instruction before the rewriting; immediates of LUI and AUIPC are already shifted by 12 bits. */
  datatype Decoded = Lui(rd: RegIdx, imm: Word, raw: Word) | Auipc(rd: RegIdx, imm: Word, raw: Word)
      | Plain(insn: Instruction)

  function ProcessLui(d: Decoded): Instruction
    requires d.Lui?
  {
    Instruction(ADDI, 0, 0, d.rd, d.imm, d.raw)
  }

  function ProcessAuipc(d: Decoded, pc: Word): Instruction
    requires d.Auipc?
  {
    Instruction(ADDI, 0, 0, d.rd, WrappingAdd(d.imm, pc), d.raw)
  }

  function Rewrite(d: Decoded, pc: Word): Instruction {
    match d
    case Lui(_, _, _) => ProcessLui(d)
    case Auipc(_, _, _) => ProcessAuipc(d, pc)
    case Plain(insn) => insn
  }

  /** The address x words after the base address. */
  function BakedPc(base: Word, x: nat): Word { Wrapped(Number(base) + 4 * x) }

  /** `transpile`: every instruction is rewritten for its own address. */
  function Transpile(base: Word, source: seq<Decoded>): (r: seq<Instruction>)
    ensures |r| == |source| && forall i :: 0 <= i < |r| ==> r[i] == Rewrite(source[i], BakedPc(base, i))
  {
    seq(|source|, i requires 0 <= i < |source| => Rewrite(source[i], BakedPc(base, i)))
  }

  // ---------- fetch finds the instruction whose address was baked in ----------

  lemma BakedNumber(base: Word, pc: Word)
    requires Number(pc) % 4 == 0
    ensures WordDistance(base, pc) == (Number(pc) - Number(base)) % TWO32 / 4
    ensures Number(BakedPc(base, WordDistance(base, pc)))
         == (Number(base) + 4 * ((Number(pc) - Number(base)) % TWO32 / 4)) % TWO32
  {
    hide Number, Wrapped;
    NumberBound(pc);
    WrappedNumber(4 * Waddr(pc));
    WrappedNumber(Number(WordStart(pc)) - Number(base));
    WrappedNumber(Number(base) + 4 * WordDistance(base, pc));
  }

  lemma WholeWords(b: nat, p: nat)
    requires b < TWO32 && p < TWO32 && p % 4 == 0
    ensures (b + 4 * ((p - b) % TWO32 / 4)) % TWO32 == p <==> b % 4 == 0
  {
  }

  /** For an aligned pc the baked address is the pc exactly when the program starts at an aligned address. */
  lemma BakedAddressIsPc(base: Word, pc: Word)
    requires Aligned(pc)
    ensures BakedPc(base, WordDistance(base, pc)) == pc <==> Aligned(base)
  {
    hide Number, And, BakedPc, WordDistance, Aligned;
    AlignedNumber(pc);
    AlignedNumber(base);
    NumberBound(pc);
    NumberBound(base);
    BakedNumber(base, pc);
    WholeWords(Number(base), Number(pc));
    if Number(BakedPc(base, WordDistance(base, pc))) == Number(pc) {
      NumberInjective(BakedPc(base, WordDistance(base, pc)), pc);
    }
  }

  // ---------- the rewritten program means the same ----------

  /** The value LUI and AUIPC put into their destination. */
  function UpperValue(d: Decoded, pc: Word): Word
    requires !d.Plain?
  {
    if d.Lui? then d.imm else WrappingAdd(pc, d.imm)
  }

  /** A completed instruction that does not leave its own address is the busy-loop error, unless it halts. */
  function Completed(m: Machine, e: Effect): Option<Machine> {
    match e
    case Trapped(_) => None
    case Done(next, _) => if next.pc == WordStart(m.pc) && !next.halted then None else Some(next)
  }

  /** One step of the original program, with LUI and AUIPC as the architecture defines them; None is an error or a
      machine that has halted. */
  function SourceStep(env: Env, base: Word, source: seq<Decoded>, m: Machine): Option<Machine>
    requires |m.registers| == REG_COUNT
  {
    var i := WordDistance(base, m.pc);
    if m.halted || i >= |source| then None
    else
      match source[i]
      case Plain(insn) => Completed(m, Execute(env, insn, m))
      case _ =>
        var rd := if source[i].rd != 0 then source[i].rd else RD_NULL;
        Some(m.(pc := NextPc(m.pc), registers := m.registers[rd := UpperValue(source[i], m.pc)]))
  }

  lemma WordStepIs(env: Env, p: Program, m: Machine)
    requires |m.registers| == REG_COUNT && !m.halted
    ensures WordStep(env, p, m) == match Fetch(p, m.pc) case None => None
              case Some(insn) => Completed(m, Execute(env, insn, m))
  {
    hide Execute, Fetch, WordStart;
  }

  lemma NextPcMoves(pc: Word)
    ensures NextPc(pc) != WordStart(pc)
  {
    hide Number, Wrapped;
    WrappedNumber(Number(pc) + 4);
    WrappedNumber(4 * Waddr(pc));
    NumberBound(pc);
  }

  lemma ZeroPlus(a: Word, b: Word)
    ensures WrappingAdd(0, a) == a && WrappingAdd(a, b) == WrappingAdd(b, a)
  {
    hide Number, Wrapped;
    ZeroOrMore(0);
    NumberBound(a);
    WrappedNumber(Number(a));
    NumberInjective(WrappingAdd(0, a), a);
    NumberInjective(WrappingAdd(a, b), WrappingAdd(b, a));
  }

  /** ADDI on x0 puts its immediate into its destination. */
  lemma AddiOnZero(insn: Instruction, m: Machine)
    requires ValidMachine(m) && insn.kind.ADDI? && insn.rs1 == 0
    ensures var rd := if insn.rd != 0 then insn.rd else RD_NULL;
            ExecuteCompute(insn, m).Done?
            && ExecuteCompute(insn, m).machine == m.(pc := NextPc(m.pc), registers := m.registers[rd := insn.imm])
  {
    hide WrappingAdd, Aligned, NextPc, ReadReg, WriteReg, Alu, ComputePc, ComputeOut;
    ComputeParts(insn, m);
    AluAddi(0, insn.imm);
    NextAligned(m.pc);
    ZeroPlus(insn.imm, 0);
  }

  /** A loaded program: the rewritten instructions at an aligned base address. */
  function Loaded(entry: Word, base: Word, source: seq<Decoded>): Program
  {
    Program(entry, base, Transpile(base, source))
  }

  /** At every valid state the rewritten program makes the step of the original one. */
  lemma StepMeansTheSame(env: Env, entry: Word, base: Word, source: seq<Decoded>, m: Machine)
    requires ValidMachine(m) && Aligned(base)
    ensures WordStep(env, Loaded(entry, base, source), m) == SourceStep(env, base, source, m)
  {
    hide WrappingAdd, Aligned, NextPc, BakedPc, WordDistance, Number, Completed, Execute, ValidMachine, WordStep,
         UpperValue,
         ProcessLui, ProcessAuipc;
    var i := WordDistance(base, m.pc);
    ValidIs(m);
    if m.halted {
      HaltedStep(env, Loaded(entry, base, source), m);
    } else {
      WordStepIs(env, Loaded(entry, base, source), m);
      if i < |source| {
        BakedAddressIsPc(base, m.pc);
        assert Transpile(base, source)[i] == Rewrite(source[i], m.pc);
        if !source[i].Plain? {
          UpperStep(env, source[i], m);
        }
      }
    }
  }

  /** The rewritten LUI or AUIPC completes as the original one. */
  lemma UpperStep(env: Env, d: Decoded, m: Machine)
    requires ValidMachine(m) && !d.Plain? && !m.halted
    ensures Completed(m, Execute(env, Rewrite(d, m.pc), m))
         == Some(m.(pc := NextPc(m.pc),
                    registers := m.registers[(if d.rd != 0 then d.rd else RD_NULL) := UpperValue(d, m.pc)]))
  {
    hide WrappingAdd, NextPc, ExecuteCompute, Execute, WordStart, Aligned;
    var insn := Rewrite(d, m.pc);
    ZeroPlus(d.imm, m.pc);
    AddiOnZero(insn, m);
    ExecuteIsCompute(env, insn, m);
    NextPcMoves(m.pc);
  }

  lemma HaltedStep(env: Env, p: Program, m: Machine)
    requires |m.registers| == REG_COUNT && m.halted
    ensures WordStep(env, p, m) == None
  {
    hide Step;
  }

  lemma ValidIs(m: Machine)
    requires ValidMachine(m)
    ensures |m.registers| == REG_COUNT && Aligned(m.pc)
  {
  }

  lemma ExecuteIsCompute(env: Env, insn: Instruction, m: Machine)
    requires |m.registers| == REG_COUNT && insn.kind.ADDI?
    ensures Execute(env, insn, m) == ExecuteCompute(insn, m)
  {
    hide ExecuteCompute;
  }

  function SourceRun(env: Env, base: Word, source: seq<Decoded>, m: Machine, n: nat): Option<Machine>
    decreases n
  {
    if n == 0 then Some(m)
    else if |m.registers| != REG_COUNT then None
    else
      match SourceStep(env, base, source, m)
      case None => None
      case Some(next) => SourceRun(env, base, source, next, n - 1)
  }

  /** The call made at a state of the original program, if one is made, keeps x0 zero and the pc aligned. */
  ghost predicate CoreKeptIn(env: Env, base: Word, source: seq<Decoded>, o: Option<Machine>) {
    o.Some? && |o.value.registers| == REG_COUNT ==>
      var i := WordDistance(base, o.value.pc);
      i < |source| && source[i].Plain? ==> CallKeepsCore(env, source[i].insn, o.value)
  }

  ghost predicate CallsKeepCore(env: Env, base: Word, source: seq<Decoded>, m: Machine, n: nat) {
    forall k: nat :: k < n ==> CoreKeptIn(env, base, source, SourceRun(env, base, source, m, k))
  }

  lemma SourceKeepsValid(env: Env, base: Word, source: seq<Decoded>, m: Machine)
    requires ValidMachine(m) && CoreKeptIn(env, base, source, Some(m)) && SourceStep(env, base, source, m).Some?
    ensures ValidMachine(SourceStep(env, base, source, m).value)
  {
    hide Execute, WordDistance, Number, Aligned, NextPc, WordStart, CallKeepsCore, UpperValue;
    NextAligned(m.pc);
    var i := WordDistance(base, m.pc);
    if source[i].Plain? {
      ExecuteValid(env, source[i].insn, m);
    }
  }

  lemma CoreUnfold(env: Env, base: Word, source: seq<Decoded>, m: Machine, n: nat)
    requires n > 0 && |m.registers| == REG_COUNT && CallsKeepCore(env, base, source, m, n)
    ensures CoreKeptIn(env, base, source, Some(m))
    ensures SourceStep(env, base, source, m).Some? ==>
              CallsKeepCore(env, base, source, SourceStep(env, base, source, m).value, n - 1)
  {
    hide SourceStep, CoreKeptIn;
    assert CoreKeptIn(env, base, source, SourceRun(env, base, source, m, 0));
    if SourceStep(env, base, source, m).Some? {
      var next := SourceStep(env, base, source, m).value;
      forall k: nat | k < n - 1 ensures CoreKeptIn(env, base, source, SourceRun(env, base, source, next, k)) {
        assert CoreKeptIn(env, base, source, SourceRun(env, base, source, m, k + 1));
      }
    }
  }

  /** Over every run, for every aligned program: the rewriting preserves the meaning, as long as the system calls
      that are made keep x0 zero and the pc aligned. */
  lemma {:induction false} RunMeansTheSame(env: Env, entry: Word, base: Word, source: seq<Decoded>, m: Machine, n: nat)
    requires ValidMachine(m) && Aligned(base)
    requires CallsKeepCore(env, base, source, m, n)
    ensures WordRun(env, Loaded(entry, base, source), m, n) == SourceRun(env, base, source, m, n)
    decreases n
  {
    hide WordStep, SourceStep, Aligned, Loaded, CallsKeepCore, CoreKeptIn;
    if n > 0 {
      StepMeansTheSame(env, entry, base, source, m);
      CoreUnfold(env, base, source, m, n);
      if SourceStep(env, base, source, m).Some? {
        SourceKeepsValid(env, base, source, m);
        RunMeansTheSame(env, entry, base, source, SourceStep(env, base, source, m).value, n - 1);
      }
    }
  }

  /** At an unaligned base address AUIPC is baked with the wrong pc. */
  lemma UnalignedBaseIsWrong(base: Word, pc: Word)
    requires Aligned(pc) && !Aligned(base)
    ensures BakedPc(base, WordDistance(base, pc)) != pc
  {
    hide *;
    BakedAddressIsPc(base, pc);
  }
}

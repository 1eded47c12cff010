/** The word memory with masked sub-word accesses refines a byte-addressed little-endian memory, over every run
    (section 2.6 of the RISC-V Unprivileged ISA, version 20191213). */
module ByteMemory {
  import opened Wrappers
  import opened Words
  import opened Rv32im

  // ---------- the byte-addressed reference ----------

  /** Byte k of a word, the lowest first. */
  function Lane(data: Word, k: Word): Word
    requires k < 4
  {
    (data >> (8 * k)) & 0xff
  }

  function Low2(a: Word): (k: Word)
    ensures k < 4
  {
    a & 3
  }

  /** Sign extension of a byte and of a half word. */
  function ExtendByte(b: Word): Word { if b >= 0x80 then b | 0xffffff00 else b }

  function ExtendHalf(h: Word): Word { if h >= 0x8000 then h | 0xffff0000 else h }

  /** Little-endian composition. */
  function Join2(b0: Word, b1: Word): Word { b0 | (b1 << 8) }

  function Join4(b0: Word, b1: Word, b2: Word, b3: Word): Word { b0 | (b1 << 8) | (b2 << 16) | (b3 << 24) }

  function HalfAt(bytes: Word -> Word, a: Word): Word { Join2(bytes(a), bytes(WrappingAdd(a, 1))) }

  function WordAt(bytes: Word -> Word, a: Word): Word {
    Join4(bytes(a), bytes(WrappingAdd(a, 1)), bytes(WrappingAdd(a, 2)), bytes(WrappingAdd(a, 3)))
  }

  function LoadBytes(kind: InsnKind, bytes: Word -> Word, addr: Word): Word {
    match kind
    case LB => ExtendByte(bytes(addr))
    case LBU => bytes(addr)
    case LH => ExtendHalf(HalfAt(bytes, addr))
    case LHU => HalfAt(bytes, addr)
    case _ => WordAt(bytes, addr)
  }

  /** The byte at b after a store of one, two or four bytes at addr. */
  function StoredByte(kind: InsnKind, bytes: Word -> Word, addr: Word, value: Word, b: Word): Word {
    if b == addr then Lane(value, 0)
    else if !kind.SB? && b == WrappingAdd(addr, 1) then Lane(value, 1)
    else if kind.SW? && b == WrappingAdd(addr, 2) then Lane(value, 2)
    else if kind.SW? && b == WrappingAdd(addr, 3) then Lane(value, 3)
    else bytes(b)
  }

  // ---------- the word memory read as bytes ----------

  function ByteAt(m: Machine, a: Word): Word { Lane(m.PeekMemory(Waddr(a)), Low2(a)) }

  function BytesOf(m: Machine): Word -> Word { (a: Word) => ByteAt(m, a) }

  /** The bytes of an aligned word, and of an aligned half word, lie in one word of the memory. */
  lemma WithinWord(a: Word, d: Word)
    requires Low2(a) == 0 && d < 4
    ensures Waddr(WrappingAdd(a, d)) == Waddr(a) && Low2(WrappingAdd(a, d)) == d
  {
    hide Number, Wrapped, Low2;
    WrappedNumber(Number(a) + Number(d));
    Low2Number(a);
    Low2Number(WrappingAdd(a, d));
    ZeroOrMore(0);
    LessNumber(d, 4);
    ZeroWord();
    NumberBound(a);
    NumberInjective(Low2(WrappingAdd(a, d)), d);
  }

  lemma Low2Number(a: Word)
    ensures Number(Low2(a)) == Number(a) % 4
  {
    hide Number, And;
    LowBits(a);
    Low2Is(a);
  }

  lemma Low2Is(a: Word)
    ensures Low2(a) == And(a, 3)
  {
  }

  lemma WithinHalf(a: Word)
    requires a & 1 == 0
    ensures Waddr(WrappingAdd(a, 1)) == Waddr(a)
    ensures (Low2(a) == 0 && Low2(WrappingAdd(a, 1)) == 1) || (Low2(a) == 2 && Low2(WrappingAdd(a, 1)) == 3)
  {
    hide Number, Wrapped, Low2;
    EvenAddress(a);
    SmallNumbers();
    var next := WrappingAdd(a, 1);
    WrappedNumber(Number(a) + 1);
    Low2Number(a);
    Low2Number(next);
    NumberBound(a);
    if Number(a) % 4 == 0 {
      NumberInjective(Low2(a), 0);
      NumberInjective(Low2(next), 1);
    } else {
      NumberInjective(Low2(a), 2);
      NumberInjective(Low2(next), 3);
    }
  }

  lemma EvenAddress(a: Word)
    requires a & 1 == 0
    ensures Number(a) % 2 == 0
  {
    hide Number;
    EvenIs(a);
    LowBits(a);
    ZeroOrMore(0);
  }

  lemma EvenIs(a: Word)
    requires a & 1 == 0
    ensures And(a, 1) == 0
  {
  }

  lemma SmallNumbers()
    ensures Number(0) == 0 && Number(1) == 1 && Number(2) == 2 && Number(3) == 3
  {
  }

  lemma LoadLanes(data: Word, addr: Word)
    ensures LoadValue(LBU, data, addr) == Lane(data, Low2(addr))
    ensures LoadValue(LB, data, addr) == ExtendByte(Lane(data, Low2(addr)))
  {
    SignBits((data >> Shift(addr)) & 0xff, 0);
  }

  lemma SignBits(b: bv32, h: bv32)
    ensures b <= 0xff ==> (b & 0x80 != 0 <==> b >= 0x80)
    ensures h <= 0xffff ==> (h & 0x8000 != 0 <==> h >= 0x8000)
  {
  }

  lemma HalfLanes(data: bv32)
    ensures (data >> 0) & 0xffff == Join2(Lane(data, 0), Lane(data, 1))
    ensures (data >> 16) & 0xffff == Join2(Lane(data, 2), Lane(data, 3))
  {
  }

  lemma WordLanes(data: bv32)
    ensures data == Join4(Lane(data, 0), Lane(data, 1), Lane(data, 2), Lane(data, 3))
  {
  }

  /** Loads return the addressed bytes, sign- or zero-extended. */
  lemma LoadRefines(kind: InsnKind, m: Machine, addr: Word)
    requires Category(kind).Load? && !Misaligned(kind, addr)
    ensures LoadValue(kind, m.PeekMemory(Waddr(addr)), addr) == LoadBytes(kind, BytesOf(m), addr)
  {
    var data := m.PeekMemory(Waddr(addr));
    hide LoadValue, HalfAt, WordAt, Lane, Waddr, ExtendByte, ExtendHalf, Low2;
    LoadWordIs(data, addr);
    match kind
    case LB => LoadLanes(data, addr);
    case LBU => LoadLanes(data, addr);
    case LH => LoadHalf(m, addr);
    case LHU => LoadHalf(m, addr);
    case LW => LoadWord(m, addr);
  }

  function HalfOf(data: Word, addr: Word): Word { (data >> Shift(addr)) & 0xffff }

  lemma HalfOfLanes(data: Word, addr: Word)
    requires addr & 1 == 0
    ensures Low2(addr) == 0 ==> HalfOf(data, addr) == Join2(Lane(data, 0), Lane(data, 1))
    ensures Low2(addr) == 2 ==> HalfOf(data, addr) == Join2(Lane(data, 2), Lane(data, 3))
  {
    hide Lane, Join2;
    HalfLanes(data);
  }

  lemma LoadHalfIs(data: Word, addr: Word)
    ensures LoadValue(LHU, data, addr) == HalfOf(data, addr)
    ensures LoadValue(LH, data, addr) == ExtendHalf(HalfOf(data, addr))
  {
    SignBits(0, (data >> Shift(addr)) & 0xffff);
  }

  lemma LoadWordIs(data: Word, addr: Word)
    ensures LoadValue(LW, data, addr) == data
  {
  }

  lemma LoadHalf(m: Machine, addr: Word)
    requires addr & 1 == 0
    ensures LoadValue(LHU, m.PeekMemory(Waddr(addr)), addr) == HalfAt(BytesOf(m), addr)
    ensures LoadValue(LH, m.PeekMemory(Waddr(addr)), addr) == ExtendHalf(HalfAt(BytesOf(m), addr))
  {
    hide Waddr, WrappingAdd, Low2, Join2, Lane, LoadValue, ExtendHalf, HalfOf;
    WithinHalf(addr);
    HalfOfLanes(m.PeekMemory(Waddr(addr)), addr);
    LoadHalfIs(m.PeekMemory(Waddr(addr)), addr);
  }

  lemma LoadWord(m: Machine, addr: Word)
    requires addr & 3 == 0
    ensures m.PeekMemory(Waddr(addr)) == WordAt(BytesOf(m), addr)
  {
    hide Waddr, WrappingAdd, Join4, Lane;
    WithinWord(addr, 1);
    WithinWord(addr, 2);
    WithinWord(addr, 3);
    WordLanes(m.PeekMemory(Waddr(addr)));
  }

  // ---------- stores ----------

  lemma ByteLanes0(data: bv32, value: bv32)
    ensures var r := Masked(data, 0xff, value, 0);
            Lane(r, 0) == Lane(value, 0) && Lane(r, 1) == Lane(data, 1) && Lane(r, 2) == Lane(data, 2) &&
                Lane(r, 3) == Lane(data, 3)
  {
  }

  lemma ByteLanes1(data: bv32, value: bv32)
    ensures var r := Masked(data, 0xff, value, 8);
            Lane(r, 0) == Lane(data, 0) && Lane(r, 1) == Lane(value, 0) && Lane(r, 2) == Lane(data, 2) &&
                Lane(r, 3) == Lane(data, 3)
  {
  }

  lemma ByteLanes2(data: bv32, value: bv32)
    ensures var r := Masked(data, 0xff, value, 16);
            Lane(r, 0) == Lane(data, 0) && Lane(r, 1) == Lane(data, 1) && Lane(r, 2) == Lane(value, 0) &&
                Lane(r, 3) == Lane(data, 3)
  {
  }

  lemma ByteLanes3(data: bv32, value: bv32)
    ensures var r := Masked(data, 0xff, value, 24);
            Lane(r, 0) == Lane(data, 0) && Lane(r, 1) == Lane(data, 1) && Lane(r, 2) == Lane(data, 2) &&
                Lane(r, 3) == Lane(value, 0)
  {
  }

  lemma HalfLanes0(data: bv32, value: bv32)
    ensures var r := Masked(data, 0xffff, value, 0);
            Lane(r, 0) == Lane(value, 0) && Lane(r, 1) == Lane(value, 1) && Lane(r, 2) == Lane(data, 2) &&
                Lane(r, 3) == Lane(data, 3)
  {
  }

  lemma HalfLanes2(data: bv32, value: bv32)
    ensures var r := Masked(data, 0xffff, value, 16);
            Lane(r, 0) == Lane(data, 0) && Lane(r, 1) == Lane(data, 1) && Lane(r, 2) == Lane(value, 0) &&
                Lane(r, 3) == Lane(value, 1)
  {
  }

  /** Byte k of a word after a byte was stored at addr. */
  lemma StoreByteLanes(data: Word, value: Word, addr: Word, k: Word)
    requires k < 4
    ensures Lane(StoreValue(SB, data, addr, value), k) == if k == Low2(addr) then Lane(value, 0) else Lane(data, k)
  {
    hide Lane, Masked;
    ByteLanes0(data, value);
    ByteLanes1(data, value);
    ByteLanes2(data, value);
    ByteLanes3(data, value);
  }

  /** Byte k of a word after a half word was stored at addr. */
  lemma StoreHalfLanes(data: Word, value: Word, addr: Word, k: Word)
    requires k < 4 && addr & 1 == 0
    ensures Lane(StoreValue(SH, data, addr, value), k)
         == if k == Low2(addr) then Lane(value, 0) else if k == Low2(WrappingAdd(addr, 1)) then Lane(value, 1)
             else Lane(data, k)
  {
    hide Lane, Masked, WrappingAdd;
    WithinHalf(addr);
    HalfLanes0(data, value);
    HalfLanes2(data, value);
  }

  /** An address is its word and its place in the word. */
  lemma SameByte(a: Word, b: Word)
    ensures a == b <==> Waddr(a) == Waddr(b) && Low2(a) == Low2(b)
  {
    hide Number, Low2;
    Low2Number(a);
    Low2Number(b);
    if Waddr(a) == Waddr(b) && Low2(a) == Low2(b) { NumberInjective(a, b); }
  }

  function Stored(kind: InsnKind, m: Machine, addr: Word, value: Word): Machine {
    m.(memory := m.memory[Waddr(addr) := StoreValue(kind, m.PeekMemory(Waddr(addr)), addr, value)])
  }

  lemma StoredElsewhere(kind: InsnKind, m: Machine, addr: Word, value: Word, b: Word)
    ensures ByteAt(Stored(kind, m, addr, value), b)
         == if Waddr(b) == Waddr(addr) then Lane(StoreValue(kind, m.PeekMemory(Waddr(addr)), addr, value), Low2(b))
             else ByteAt(m, b)
  {
    hide Waddr, StoreValue, Lane, Low2;
  }

  /** Stores change exactly the addressed bytes. */
  lemma StoreRefines(kind: InsnKind, m: Machine, addr: Word, value: Word, b: Word)
    requires Category(kind).Store? && !Misaligned(kind, addr)
    ensures ByteAt(Stored(kind, m, addr, value), b) == StoredByte(kind, BytesOf(m), addr, value, b)
  {
    hide Waddr, StoreValue, Lane, Low2, Stored, WrappingAdd, Misaligned;
    StoredElsewhere(kind, m, addr, value, b);
    SameByte(b, addr);
    SameByte(b, WrappingAdd(addr, 1));
    var data := m.PeekMemory(Waddr(addr));
    match kind
    case SB =>
      StoreByteLanes(data, value, addr, Low2(b));
    case SH =>
      HalfAligned(addr);
      WithinHalf(addr);
      StoreHalfLanes(data, value, addr, Low2(b));
    case SW =>
      SameByte(b, WrappingAdd(addr, 2));
      SameByte(b, WrappingAdd(addr, 3));
      WordPlaces(addr, b);
      StoreWordIs(data, addr, value);
  }

  lemma HalfAligned(addr: Word)
    requires !Misaligned(SH, addr)
    ensures addr & 1 == 0
  {
  }

  lemma StoreWordIs(data: Word, addr: Word, value: Word)
    ensures StoreValue(SW, data, addr, value) == value
  {
  }

  lemma WordPlaces(addr: Word, b: Word)
    requires !Misaligned(SW, addr)
    ensures Low2(addr) == 0
    ensures Low2(WrappingAdd(addr, 1)) == 1 && Low2(WrappingAdd(addr, 2)) == 2 && Low2(WrappingAdd(addr, 3)) == 3
    ensures Waddr(WrappingAdd(addr, 1)) == Waddr(WrappingAdd(addr, 2)) == Waddr(WrappingAdd(addr, 3)) == Waddr(addr)
    ensures Low2(b) == 0 || Low2(b) == 1 || Low2(b) == 2 || Low2(b) == 3
  {
    hide Waddr, WrappingAdd;
    WithinWord(addr, 1);
    WithinWord(addr, 2);
    WithinWord(addr, 3);
  }

  // ---------- runs ----------

  datatype ByteMachine = ByteMachine(pc: Word, registers: seq<Word>, bytes: Word -> Word, halted: bool)

  ghost predicate Represents(bm: ByteMachine, m: Machine) {
    && bm.pc == m.pc && bm.registers == m.registers && bm.halted == m.halted
    && forall a: Word :: bm.bytes(a) == ByteAt(m, a)
  }

  /** The registers and the pc of a byte machine. */
  function Core(bm: ByteMachine): Machine { Machine(bm.pc, bm.registers, map[], bm.halted) }

  /** Words written by a system call, later ones last. */
  function WordsStored(bytes: Word -> Word, ops: seq<WriteOp>, b: Word): Word
    decreases |ops|
  {
    if ops == [] then bytes(b)
    else if ops[|ops| - 1].addr == Waddr(b) then Lane(ops[|ops| - 1].after, Low2(b))
    else WordsStored(bytes, ops[..|ops| - 1], b)
  }

  function ByteEcall(platform: Platform, bm: ByteMachine, effects: Option<SyscallEffects>): Option<ByteMachine>
    requires |bm.registers| == REG_COUNT
  {
    if bm.registers[REG_ECALL] == ECALL_HALT then Some(bm.(pc := 0, halted := true))
    else if effects.Some? then
      var e := effects.value;
      match ApplyRegs(bm.registers, e.regOps)
      case None => None
      case Some(registers) =>
        Some(ByteMachine(if e.nextPc.Some? then e.nextPc.value else NextPc(bm.pc), registers,
                         (b: Word) => WordsStored(bm.bytes, e.memOps, b), bm.halted))
    else if platform.unsafeEcallNop then Some(bm.(pc := NextPc(bm.pc), registers := bm.registers[RD_NULL := 0]))
    else None
  }

  /** One instruction on the byte machine; None is a trap. */
  function ByteExecute(platform: Platform, insn: Instruction, bm: ByteMachine,
                       effects: Option<SyscallEffects>): Option<ByteMachine>
    requires |bm.registers| == REG_COUNT
  {
    match Category(insn.kind)
    case Compute =>
      (match ExecuteCompute(insn, Core(bm))
       case Trapped(_) => None
       case Done(next, _) => Some(bm.(pc := next.pc, registers := next.registers)))
    case Branch =>
      (match ExecuteBranch(insn, Core(bm))
       case Trapped(_) => None
       case Done(next, _) => Some(bm.(pc := next.pc)))
    case Load =>
      var addr := Address(insn, Core(bm));
      if !platform.CanRead(addr) || Misaligned(insn.kind, addr) then None
      else Some(bm.(pc := NextPc(bm.pc),
                    registers := bm.registers[RdInternal(insn) := LoadBytes(insn.kind, bm.bytes, addr)]))
    case Store =>
      var addr := Address(insn, Core(bm));
      if !platform.CanWrite(addr) || Misaligned(insn.kind, addr) then None
      else Some(bm.(pc := NextPc(bm.pc),
                    bytes := (b: Word) => StoredByte(insn.kind, bm.bytes, addr, bm.registers[insn.rs2], b)))
    case System => ByteEcall(platform, bm, effects)
    case Invalid => None
  }

  lemma SameBytes(kind: InsnKind, f: Word -> Word, g: Word -> Word, addr: Word)
    requires forall a: Word :: f(a) == g(a)
    ensures LoadBytes(kind, f, addr) == LoadBytes(kind, g, addr)
  {
    hide WrappingAdd, Join2, Join4, ExtendByte, ExtendHalf;
  }

  lemma {:induction false} ApplyMemSnoc(memory: map<WordAddr, Word>, ops: seq<WriteOp>, op: WriteOp)
    ensures ApplyMem(memory, ops + [op]) == ApplyMem(memory, ops)[op.addr := op.after]
    decreases |ops|
  {
    if ops == [] {
      assert ([] + [op])[1..] == [];
    } else {
      assert (ops + [op])[1..] == ops[1..] + [op];
      ApplyMemSnoc(memory[ops[0].addr := ops[0].after], ops[1..], op);
    }
  }

  lemma {:induction false} WordsStoredIs(m: Machine, bytes: Word -> Word, ops: seq<WriteOp>, b: Word)
    requires forall a: Word :: bytes(a) == ByteAt(m, a)
    ensures WordsStored(bytes, ops, b) == ByteAt(m.(memory := ApplyMem(m.memory, ops)), b)
    decreases |ops|
  {
    hide Lane, Waddr, Low2;
    if ops != [] {
      var front, last := ops[..|ops| - 1], ops[|ops| - 1];
      assert ops == front + [last];
      ApplyMemSnoc(m.memory, front, last);
      WordsStoredIs(m, bytes, front, b);
    }
  }

  /** One instruction of the emulator is one instruction of the byte machine. */
  lemma ExecuteRefines(env: Env, insn: Instruction, m: Machine, bm: ByteMachine)
    requires |m.registers| == REG_COUNT && Represents(bm, m)
    ensures var r, br := Execute(env, insn, m),
              ByteExecute(env.platform, insn, bm, env.syscall(m.registers[REG_ECALL], m));
            (r.Done? <==> br.Some?) && (r.Done? ==> Represents(br.value, r.machine))
  {
    hide WrappingAdd, Wrapped, Lane, Waddr, Low2, Platform.CanRead, Platform.CanWrite, Misaligned, LoadBytes,
         StoredByte, LoadValue,
         StoreValue, Address, NextPc,
         ComputePc, ComputeOut, BranchPc, Aligned, LastStackWord;
    match Category(insn.kind)
    case Compute => ComputeRefines(insn, m, bm);
    case Branch => ComputeRefines(insn, m, bm);
    case Load => LoadStepRefines(env, insn, m, bm);
    case Store => StoreStepRefines(env, insn, m, bm);
    case System => EcallRefines(env, m, bm);
    case Invalid =>
  }

  lemma ComputeRefines(insn: Instruction, m: Machine, bm: ByteMachine)
    requires |m.registers| == REG_COUNT && Represents(bm, m)
    ensures ComputePc(insn, Core(bm)) == ComputePc(insn, m) && ComputeOut(insn, Core(bm)) == ComputeOut(insn, m)
    ensures BranchPc(insn, Core(bm)) == BranchPc(insn, m)
  {
    hide WrappingAdd, NextPc, JumpTarget, Alu, Taken;
  }

  lemma SameAddress(insn: Instruction, m: Machine, bm: ByteMachine)
    requires |m.registers| == REG_COUNT && Represents(bm, m)
    ensures Address(insn, Core(bm)) == Address(insn, m)
  {
    hide WrappingAdd;
  }

  lemma LoadStepRefines(env: Env, insn: Instruction, m: Machine, bm: ByteMachine)
    requires |m.registers| == REG_COUNT && Represents(bm, m) && Category(insn.kind).Load?
    ensures var r, br := ExecuteLoad(env, insn, m), ByteExecute(env.platform, insn, bm, None);
            (r.Done? <==> br.Some?) && (r.Done? ==> Represents(br.value, r.machine))
  {
    hide Lane, Waddr, Low2, Platform.CanRead, Misaligned, LoadBytes, LoadValue, Address, NextPc, ReadReg, WriteReg,
         WriteMem, WrappingAdd;
    SameAddress(insn, m, bm);
    var addr := Address(insn, m);
    if !Misaligned(insn.kind, addr) {
      LoadRefines(insn.kind, m, addr);
      SameBytes(insn.kind, bm.bytes, BytesOf(m), addr);
    }
  }

  lemma SameMemoryBytes(m: Machine, n: Machine, b: Word)
    requires m.memory == n.memory
    ensures ByteAt(m, b) == ByteAt(n, b)
  {
  }

  lemma SameStoredByte(kind: InsnKind, f: Word -> Word, g: Word -> Word, addr: Word, value: Word, b: Word)
    requires f(b) == g(b)
    ensures StoredByte(kind, f, addr, value, b) == StoredByte(kind, g, addr, value, b)
  {
    hide Lane, WrappingAdd;
  }

  lemma StoreStepRefines(env: Env, insn: Instruction, m: Machine, bm: ByteMachine)
    requires |m.registers| == REG_COUNT && Represents(bm, m) && Category(insn.kind).Store?
    ensures var r, br := ExecuteStore(env, insn, m), ByteExecute(env.platform, insn, bm, None);
            (r.Done? <==> br.Some?) && (r.Done? ==> Represents(br.value, r.machine))
  {
    hide Lane, Waddr, Low2, Platform.CanWrite, Misaligned, StoreValue, Address, NextPc, ReadReg, WriteMem, StoredByte,
         WrappingAdd;
    SameAddress(insn, m, bm);
    var r, addr, value := ExecuteStore(env, insn, m), Address(insn, m), m.registers[insn.rs2];
    if r.Done? {
      forall b: Word ensures StoredByte(insn.kind, bm.bytes, addr, value, b) == ByteAt(r.machine, b) {
        StoreRefines(insn.kind, m, addr, value, b);
        SameMemoryBytes(Stored(insn.kind, m, addr, value), r.machine, b);
        SameStoredByte(insn.kind, bm.bytes, BytesOf(m), addr, value, b);
      }
    }
  }

  lemma EcallRefines(env: Env, m: Machine, bm: ByteMachine)
    requires |m.registers| == REG_COUNT && Represents(bm, m)
    ensures var r, br := ExecuteEcall(env, m), ByteEcall(env.platform, bm, env.syscall(m.registers[REG_ECALL], m));
            (r.Done? <==> br.Some?) && (r.Done? ==> Represents(br.value, r.machine))
  {
    hide Lane, Waddr, Low2, NextPc, ReadReg, WriteReg, WriteMem, ApplyMem, WordsStored, LastStackWord;
    var effects := env.syscall(m.registers[REG_ECALL], m);
    if effects.Some? {
      forall b: Word
        ensures WordsStored(bm.bytes, effects.value.memOps, b)
                  == ByteAt(m.(memory := ApplyMem(m.memory, effects.value.memOps)), b)
      {
        WordsStoredIs(m, bm.bytes, effects.value.memOps, b);
      }
    }
  }

  // ---------- the two machines run on their own ----------

  /** The system calls of the byte machine: a function of the code and of its own registers and bytes. */
  type ByteCalls = (Word, ByteMachine) -> Option<SyscallEffects>

  /** One step of the byte machine, at its own pc and with its own calls; None is an error or a halted machine. */
  function ByteStep(platform: Platform, calls: ByteCalls, p: Program, bm: ByteMachine): Option<ByteMachine>
    requires |bm.registers| == REG_COUNT
  {
    if bm.halted then None
    else
      match Fetch(p, bm.pc)
      case None => None
      case Some(insn) =>
        match ByteExecute(platform, insn, bm, calls(bm.registers[REG_ECALL], bm))
        case None => None
        case Some(next) => if next.pc == WordStart(bm.pc) && !next.halted then None else Some(next)
  }

  function ByteRun(platform: Platform, calls: ByteCalls, p: Program, bm: ByteMachine, n: nat): Option<ByteMachine>
    decreases n
  {
    if n == 0 then Some(bm)
    else if |bm.registers| != REG_COUNT then None
    else
      match ByteStep(platform, calls, p, bm)
      case None => None
      case Some(next) => ByteRun(platform, calls, p, next, n - 1)
  }

  /** The calls of the byte machine have the effects of those of the word machines it represents. */
  ghost predicate CallsMatch(env: Env, calls: ByteCalls) {
    forall code: Word, m: Machine, bm: ByteMachine :: CallMatches(env, calls, code, m, bm)
  }

  ghost predicate CallMatches(env: Env, calls: ByteCalls, code: Word, m: Machine, bm: ByteMachine) {
    Represents(bm, m) ==> calls(code, bm) == env.syscall(code, m)
  }

  /** System calls read the memory by its contents; a word that was never written counts as zero. */
  ghost predicate ReadsContents(env: Env) {
    forall code: Word, m: Machine, n: Machine :: CallReadsContents(env, code, m, n)
  }

  ghost predicate CallReadsContents(env: Env, code: Word, m: Machine, n: Machine) {
    SameBytesEverywhere(m, n) ==> env.syscall(code, m) == env.syscall(code, n)
  }

  ghost predicate SameBytesEverywhere(m: Machine, n: Machine) {
    m.pc == n.pc && m.registers == n.registers && m.halted == n.halted && forall a: Word :: ByteAt(m, a) == ByteAt(n, a)
  }

  /** The word machine that a byte machine represents, if there is one. */
  ghost function WordsOf(bm: ByteMachine): Machine {
    if exists m :: Represents(bm, m) then var m :| Represents(bm, m); m else Core(bm)
  }

  /** The calls of a byte machine, made on the word machine it represents. */
  ghost function CallsOn(env: Env): ByteCalls { (code: Word, bm: ByteMachine) => env.syscall(code, WordsOf(bm)) }

  lemma CallsOnMatch(env: Env)
    requires ReadsContents(env)
    ensures CallsMatch(env, CallsOn(env))
  {
    hide ByteAt;
    forall code: Word, m: Machine, bm: ByteMachine ensures CallMatches(env, CallsOn(env), code, m, bm) {
      if Represents(bm, m) {
        assert CallReadsContents(env, code, m, WordsOf(bm));
      }
    }
  }

  lemma MatchReadsContents(env: Env, calls: ByteCalls)
    requires CallsMatch(env, calls)
    ensures ReadsContents(env)
  {
    hide ByteAt;
    forall code: Word, m: Machine, n: Machine ensures CallReadsContents(env, code, m, n) {
      var bm := ByteMachine(m.pc, m.registers, BytesOf(m), m.halted);
      assert CallMatches(env, calls, code, m, bm) && CallMatches(env, calls, code, n, bm);
    }
  }

  /** There are matching calls exactly for system calls that read the memory by its contents. */
  lemma MatchingCalls(env: Env)
    ensures (exists calls: ByteCalls :: CallsMatch(env, calls)) <==> ReadsContents(env)
  {
    hide CallsMatch, ReadsContents, CallsOn;
    if ReadsContents(env) {
      CallsOnMatch(env);
    } else if calls: ByteCalls :| CallsMatch(env, calls) {
      MatchReadsContents(env, calls);
    }
  }

  lemma CallsMatchAt(env: Env, calls: ByteCalls, code: Word, m: Machine, bm: ByteMachine)
    requires CallsMatch(env, calls) && Represents(bm, m)
    ensures calls(code, bm) == env.syscall(code, m)
  {
    hide Represents;
    assert CallMatches(env, calls, code, m, bm);
  }

  lemma StepRefines(env: Env, calls: ByteCalls, p: Program, m: Machine, bm: ByteMachine)
    requires |m.registers| == |bm.registers| == REG_COUNT && Represents(bm, m) && CallsMatch(env, calls)
    ensures var w, b := WordStep(env, p, m), ByteStep(env.platform, calls, p, bm);
            (w.Some? <==> b.Some?) && (w.Some? ==> Represents(b.value, w.value))
  {
    hide Execute, ByteExecute, Fetch, WordStart, Represents, CallsMatch;
    RepresentsCore(bm, m);
    CallsMatchAt(env, calls, m.registers[REG_ECALL], m, bm);
    if !m.halted && Fetch(p, m.pc).Some? {
      var insn := Fetch(p, m.pc).value;
      ExecuteRefines(env, insn, m, bm);
      if Execute(env, insn, m).Done? {
        RepresentsCore(ByteExecute(env.platform, insn, bm, calls(bm.registers[REG_ECALL], bm)).value,
                       Execute(env, insn, m).machine);
      }
    }
  }

  /** Over every run, of any length: the byte machine completes it if and only if the word machine does, and then it
      represents the word machine. */
  lemma {:induction false} RunRefines(env: Env, calls: ByteCalls, p: Program, m: Machine, bm: ByteMachine, n: nat)
    requires Represents(bm, m) && CallsMatch(env, calls)
    ensures var w, b := WordRun(env, p, m, n), ByteRun(env.platform, calls, p, bm, n);
            (w.Some? <==> b.Some?) && (w.Some? ==> Represents(b.value, w.value))
    decreases n
  {
    hide WordStep, ByteStep, Represents, CallsMatch;
    RepresentsCore(bm, m);
    if n > 0 && |m.registers| == REG_COUNT {
      StepRefines(env, calls, p, m, bm);
      if WordStep(env, p, m).Some? {
        RunRefines(env, calls, p, WordStep(env, p, m).value, ByteStep(env.platform, calls, p, bm).value, n - 1);
      }
    }
  }

  /** A word machine is represented by its own bytes. */
  lemma OwnBytes(m: Machine)
    ensures Represents(ByteMachine(m.pc, m.registers, BytesOf(m), m.halted), m)
  {
  }

  lemma RepresentsCore(bm: ByteMachine, m: Machine)
    requires Represents(bm, m)
    ensures bm.pc == m.pc && bm.registers == m.registers && bm.halted == m.halted
  {
  }
}

/** The access trace of the emulator: every use of a register or a memory word is stamped with its cycle and with
    the cycle of the previous use, and the resulting trace is chained. */
module Traces {
  import opened Wrappers
  import opened MemoryArgument
  import opened Words
  import opened Rv32im

  type Use = Access<WordAddr, Word>

  /** The trace after the given uses within the instruction that starts at `cycle`. */
  function Stamp(trace: seq<Use>, cycle: nat, touches: seq<Touch>): (r: seq<Use>)
    ensures |r| == |trace| + |touches| && trace <= r
    decreases |touches|
  {
    if touches == [] then trace
    else Stamp(trace + [Stamped(trace, cycle, touches[0])], cycle, touches[1..])
  }

  function Stamped(trace: seq<Use>, cycle: nat, t: Touch): Use {
    Access(t.addr, t.before, t.after, LastTs(trace, t.addr), cycle + t.sub)
  }

  /** The contents of an address: registers and memory share one address space. */
  function Current(m: Machine, a: WordAddr): Word
    requires |m.registers| == REG_COUNT
  {
    if IsRegAddr(a) then m.registers[RegisterIndex(a)] else m.PeekMemory(a)
  }

  function Touched(m: Machine, t: Touch): (r: Machine)
    requires |m.registers| == REG_COUNT
    ensures |r.registers| == REG_COUNT
  {
    if IsRegAddr(t.addr) then m.(registers := m.registers[RegisterIndex(t.addr) := t.after])
    else m.(memory := m.memory[t.addr := t.after])
  }

  function Replay(m: Machine, touches: seq<Touch>): (r: Machine)
    requires |m.registers| == REG_COUNT
    ensures |r.registers| == REG_COUNT
    decreases |touches|
  {
    if touches == [] then m else Replay(Touched(m, touches[0]), touches[1..])
  }

  /** Every use starts from the current contents of its address. */
  ghost predicate LegalValues(m: Machine, touches: seq<Touch>)
    requires |m.registers| == REG_COUNT
    decreases |touches|
  {
    touches == [] || (touches[0].before == Current(m, touches[0].addr) &&
                      LegalValues(Touched(m, touches[0]), touches[1..]))
  }

  /** Repeated uses of one address have increasing subcycles. */
  ghost predicate LegalOrder(touches: seq<Touch>) {
    && (forall i :: 0 <= i < |touches| ==> touches[i].sub < SUBCYCLES_PER_INSN)
    && (forall i, j :: 0 <= i < j < |touches| && touches[i].addr == touches[j].addr ==> touches[i].sub < touches[j].sub)
  }

  ghost predicate Agrees(init: WordAddr -> Word, trace: seq<Use>, m: Machine)
    requires |m.registers| == REG_COUNT
  {
    forall a: WordAddr :: ValueAt(init, trace, a) == Current(m, a)
  }

  ghost predicate AllBefore(trace: seq<Use>, t: nat) {
    forall a: WordAddr :: LastTs(trace, a) < t
  }

  lemma TouchedCurrent(m: Machine, t: Touch, a: WordAddr)
    requires |m.registers| == REG_COUNT
    ensures Current(Touched(m, t), a) == if a == t.addr then t.after else Current(m, a)
  {
  }

  lemma Snoc(init: WordAddr -> Word, trace: seq<Use>, x: Use, a: WordAddr)
    ensures ValueAt(init, trace + [x], a) == if x.addr == a then x.after else ValueAt(init, trace, a)
    ensures LastTs(trace + [x], a) == if x.addr == a then x.ts else LastTs(trace, a)
    ensures Chained(init, trace + [x]) <==>
              Chained(init, trace) && x.before == ValueAt(init, trace, x.addr) &&
                  x.prevTs == LastTs(trace, x.addr) < x.ts
  {
    assert (trace + [x])[..|trace|] == trace;
  }

  lemma OneUse(init: WordAddr -> Word, trace: seq<Use>, m: Machine, cycle: nat, t: Touch)
    requires |m.registers| == REG_COUNT && Agrees(init, trace, m)
    ensures Agrees(init, trace + [Stamped(trace, cycle, t)], Touched(m, t))
    ensures Chained(init, trace + [Stamped(trace, cycle, t)]) <==>
              Chained(init, trace) && t.before == Current(m, t.addr) && LastTs(trace, t.addr) < cycle + t.sub
  {
    var x := Stamped(trace, cycle, t);
    hide Current, Touched, Chained, ValueAt, LastTs;
    forall a: WordAddr ensures ValueAt(init, trace + [x], a) == Current(Touched(m, t), a) {
      Snoc(init, trace, x, a);
      TouchedCurrent(m, t, a);
    }
    Snoc(init, trace, x, t.addr);
  }

  ghost predicate TimesAhead(trace: seq<Use>, cycle: nat, touches: seq<Touch>) {
    forall i :: 0 <= i < |touches| ==> LastTs(trace, touches[i].addr) < cycle + touches[i].sub
  }

  lemma {:induction false} StampPrefix(init: WordAddr -> Word, trace: seq<Use>, cycle: nat, touches: seq<Touch>)
    requires Chained(init, Stamp(trace, cycle, touches))
    ensures Chained(init, trace)
    decreases |touches|
  {
    hide Chained;
    if touches != [] {
      StampPrefix(init, trace + [Stamped(trace, cycle, touches[0])], cycle, touches[1..]);
      Snoc(init, trace, Stamped(trace, cycle, touches[0]), touches[0].addr);
    }
  }

  /** The times after one use still lie before the remaining uses, if the order is legal. */
  lemma NextTimes(trace: seq<Use>, cycle: nat, touches: seq<Touch>)
    requires touches != [] && LegalOrder(touches) && TimesAhead(trace, cycle, touches)
    ensures LegalOrder(touches[1..]) && TimesAhead(trace + [Stamped(trace, cycle, touches[0])], cycle, touches[1..])
  {
    hide LastTs;
    var x, rest := Stamped(trace, cycle, touches[0]), touches[1..];
    forall i | 0 <= i < |rest|
        ensures LastTs(trace + [x], rest[i].addr) < cycle + rest[i].sub && rest[i].sub < SUBCYCLES_PER_INSN {
      Snoc(_ => 0, trace, x, rest[i].addr);
      assert rest[i] == touches[i + 1];
    }
    forall i, j | 0 <= i < j < |rest| && rest[i].addr == rest[j].addr ensures rest[i].sub < rest[j].sub {
      assert rest[i] == touches[i + 1] && rest[j] == touches[j + 1];
    }
  }

  /** The uses of one instruction extend a chained trace to a chained trace if they start from the current contents
      and respect the subcycle order. */
  lemma {:induction false} StampKeeps(init: WordAddr -> Word, trace: seq<Use>, m: Machine, cycle: nat,
                                      touches: seq<Touch>)
    requires |m.registers| == REG_COUNT && Chained(init, trace) && Agrees(init, trace, m)
    requires TimesAhead(trace, cycle, touches) && LegalOrder(touches) && LegalValues(m, touches)
    ensures Chained(init, Stamp(trace, cycle, touches)) &&
              Agrees(init, Stamp(trace, cycle, touches), Replay(m, touches))
    decreases |touches|
  {
    hide Chained, Agrees, Current, Touched, LastTs, ValueAt;
    if touches != [] {
      OneUse(init, trace, m, cycle, touches[0]);
      NextTimes(trace, cycle, touches);
      StampKeeps(init, trace + [Stamped(trace, cycle, touches[0])], Touched(m, touches[0]), cycle, touches[1..]);
    }
  }

  /** The exact condition: stamping keeps the trace chained exactly when every use starts from the current contents and
      repeated uses of an address have increasing subcycles.  Two uses of one address in the same subcycle, as a system
      call with overlapping operands would make, break the chain. */
  lemma {:induction false} StampChainedIff(init: WordAddr -> Word, trace: seq<Use>, m: Machine, cycle: nat,
                                           touches: seq<Touch>)
    requires |m.registers| == REG_COUNT && Chained(init, trace) && Agrees(init, trace, m) &&
               TimesAhead(trace, cycle, touches)
    requires forall i :: 0 <= i < |touches| ==> touches[i].sub < SUBCYCLES_PER_INSN
    ensures Chained(init, Stamp(trace, cycle, touches)) <==> LegalOrder(touches) && LegalValues(m, touches)
    decreases |touches|
  {
    if LegalOrder(touches) && LegalValues(m, touches) {
      StampKeeps(init, trace, m, cycle, touches);
    } else if Chained(init, Stamp(trace, cycle, touches)) {
      hide Chained, Agrees, Current, Touched, LastTs, ValueAt;
      var x, rest := Stamped(trace, cycle, touches[0]), touches[1..];
      StampPrefix(init, trace + [x], cycle, rest);
      OneUse(init, trace, m, cycle, touches[0]);
      StampTimes(init, trace + [x], cycle, rest);
      StampChainedIff(init, trace + [x], Touched(m, touches[0]), cycle, rest);
      FirstInOrder(trace, cycle, touches);
      assert false;
    }
  }

  /** In a chained trace the stamped times lie after what came before. */
  lemma {:induction false} StampTimes(init: WordAddr -> Word, trace: seq<Use>, cycle: nat, touches: seq<Touch>)
    requires Chained(init, Stamp(trace, cycle, touches))
    ensures TimesAhead(trace, cycle, touches)
    decreases |touches|
  {
    hide Chained, LastTs, ValueAt;
    if touches != [] {
      var x, rest := Stamped(trace, cycle, touches[0]), touches[1..];
      StampPrefix(init, trace + [x], cycle, rest);
      Snoc(init, trace, x, x.addr);
      StampTimes(init, trace + [x], cycle, rest);
      forall i | 0 <= i < |touches| ensures LastTs(trace, touches[i].addr) < cycle + touches[i].sub {
        if i > 0 {
          assert touches[i] == rest[i - 1];
          Snoc(init, trace, x, rest[i - 1].addr);
        }
      }
    }
  }

  lemma FirstInOrder(trace: seq<Use>, cycle: nat, touches: seq<Touch>)
    requires touches != [] && LegalOrder(touches[1..]) && touches[0].sub < SUBCYCLES_PER_INSN
    requires TimesAhead(trace + [Stamped(trace, cycle, touches[0])], cycle, touches[1..])
    ensures LegalOrder(touches)
  {
    hide LastTs;
    var x, rest := Stamped(trace, cycle, touches[0]), touches[1..];
    forall i, j | 0 <= i < j < |touches| && touches[i].addr == touches[j].addr ensures touches[i].sub < touches[j].sub {
      assert touches[j] == rest[j - 1];
      if i == 0 { Snoc(_ => 0, trace, x, rest[j - 1].addr); } else { assert touches[i] == rest[i - 1]; }
    }
    forall i | 0 <= i < |touches| ensures touches[i].sub < SUBCYCLES_PER_INSN {
      if i > 0 { assert touches[i] == rest[i - 1]; }
    }
  }

  lemma {:induction false} StampBefore(trace: seq<Use>, cycle: nat, touches: seq<Touch>)
    requires AllBefore(trace, cycle + SUBCYCLES_PER_INSN)
    requires forall i :: 0 <= i < |touches| ==> touches[i].sub < SUBCYCLES_PER_INSN
    ensures AllBefore(Stamp(trace, cycle, touches), cycle + SUBCYCLES_PER_INSN)
    decreases |touches|
  {
    hide LastTs;
    if touches != [] {
      var x := Stamped(trace, cycle, touches[0]);
      forall a: WordAddr ensures LastTs(trace + [x], a) < cycle + SUBCYCLES_PER_INSN { Snoc(_ => 0, trace, x, a); }
      StampBefore(trace + [x], cycle, touches[1..]);
    }
  }
}

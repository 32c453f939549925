/** What every step and every run of the machine keeps. */
module Runs {
  import opened Words
  import opened Instructions
  import opened Isa

  function Fetch(env: Env, m: Machine): Result<Word> {
    Read(env.bus, m.mem, m.regs.pc, 4)
  }

  /** The address the machine executes after the instruction at pc, unless that one jumps at once. */
  function NextPc(r: Regs): Word {
    if r.flag then r.target else Wrap(r.pc + 4)
  }

  /** What the word raw does to the machine m. */
  function EffectAt(env: Env, m: Machine, raw: Word): (e: Effect)
    ensures e.Fits(m.mem)
  {
    EffectOf(env, raw, m.regs.gpr, NextPc(m.regs), m.mem)
  }

  lemma StepUnfolds(env: Env, m: Machine)
    ensures Step(env, m) == match Fetch(env, m)
                            case Err(_) => Stepped(m, false)
                            case Ok(raw) =>
                              var e := EffectAt(env, m, raw);
                              Stepped(Machine(ApplyRegs(e, raw, UpdatePc(m.regs)), ApplyMem(e, m.mem)), e.Succeeds())
  {
    hide EffectOf, Read;
  }

  // ---- Two program counters instead of a pending branch ----

  /** The textbook delay-slot machine: the instruction at pc runs while npc is already decided. */
  datatype Classic = Classic(gpr: Gpr, pc: Word, npc: Word, badInstr: Word, cause: nat, mem: seq<Byte>) {
    function Advance(): Classic {
      this.(pc := npc, npc := Wrap(npc + 4))
    }
  }

  datatype ClassicStepped = ClassicStepped(machine: Classic, ok: bool)

  function ClassicStep(env: Env, c: Classic): ClassicStepped {
    match Read(env.bus, c.mem, c.pc, 4)
    case Err(_) => ClassicStepped(c, false)
    case Ok(raw) =>
      match EffectOf(env, raw, c.gpr, c.npc, c.mem)
      case Fail => ClassicStepped(c.Advance(), false)
      case Trap => ClassicStepped(c.Advance().(badInstr := raw, cause := CAUSE_TR), false)
      case Stored(index, bytes) => ClassicStepped(c.Advance().(mem := Patch(c.mem, index, bytes)), true)
      case Done(w, control) =>
        var d := c.Advance().(gpr := WriteGpr(c.gpr, w));
        match control
        case Next => ClassicStepped(d, true)
        case After(t) => ClassicStepped(d.(npc := t), true)
        case Now(t) => ClassicStepped(d.(pc := t, npc := Wrap(t + 4)), true)
  }

  function ClassicRun(env: Env, c: Classic, n: nat): Classic {
    if n == 0 then c else ClassicStep(env, ClassicRun(env, c, n - 1)).machine
  }

  function Abstraction(m: Machine): Classic {
    Classic(m.regs.gpr, m.regs.pc, NextPc(m.regs), m.regs.badInstr, m.regs.cause, m.mem)
  }

  lemma StepSimulatesClassic(env: Env, m: Machine)
    ensures ClassicStep(env, Abstraction(m)) == ClassicStepped(Abstraction(Step(env, m).machine), Step(env, m).ok)
  {
    hide EffectOf, Read;
    StepUnfolds(env, m);
  }

  /** Every run of the pending-branch machine is a run of the two-counter machine. */
  lemma {:induction false} RunSimulatesClassic(env: Env, m: Machine, n: nat)
    ensures Abstraction(Run(env, m, n)) == ClassicRun(env, Abstraction(m), n)
  {
    hide Step, ClassicStep;
    if n > 0 {
      RunSimulatesClassic(env, m, n - 1);
      StepSimulatesClassic(env, Run(env, m, n - 1));
    }
  }

  /** Where the instruction sends control after its delay slot: a delayed branch whose condition holds, JR, JALR,
      J, JAL. */
  function DelayedTarget(i: Option<Instr>, gpr: Gpr, pc: Word): Option<Word> {
    match i
    case Some(Branch(c, a, b, offset, Delayed)) =>
      if c.Holds(gpr[a], gpr[b]) then Some(Wrap(pc + 4 * offset)) else None
    case Some(JumpReg(rs, _)) => Some(gpr[rs])
    case Some(JumpRegion(index, _)) => Some(Wrap(pc / 0x1000_0000 * 0x1000_0000 + 4 * index))
    case _ => None
  }

  /** Where the instruction sends control at once: a compact branch whose condition holds, JIC, JIALC. */
  function CompactTarget(i: Option<Instr>, gpr: Gpr, pc: Word): Option<Word> {
    match i
    case Some(Branch(c, a, b, offset, kind)) =>
      if kind != Delayed && c.Holds(gpr[a], gpr[b]) then Some(Wrap(pc + 4 * offset)) else None
    case Some(JumpIndexed(rt, offset, link)) => Some(Wrap((if link && rt == RA then pc else gpr[rt]) + offset))
    case _ => None
  }

  lemma TransfersOf(env: Env, m: Machine, raw: Word)
    ensures var e := EffectAt(env, m, raw);
            && DelayedTarget(Disassemble(raw), m.regs.gpr, NextPc(m.regs))
               == (if e.Done? && e.control.After? then Some(e.control.target) else None)
            && CompactTarget(Disassemble(raw), m.regs.gpr, NextPc(m.regs))
               == (if e.Done? && e.control.Now? then Some(e.control.target) else None)
  {
    hide Disassemble, AluValue, ImmValue, ShiftValue, Cond.Holds, Read, Locate, Bytes, Wrap, LoadedValue;
  }

  /** At every point of a run, a branch is pending exactly when the last fetched instruction was a delayed
      branch whose condition held or a delayed jump, and the pending target is that instruction's; the machine
      is at the target of a compact transfer exactly when that was the instruction, and else where it was due. */
  lemma PendingIffDelayedBranch(env: Env, m: Machine, n: nat)
    ensures var before, after := Run(env, m, n), Run(env, m, n + 1);
            match Fetch(env, before)
            case Err(_) => after == before
            case Ok(raw) =>
              var delayed := DelayedTarget(Disassemble(raw), before.regs.gpr, NextPc(before.regs));
              var compact := CompactTarget(Disassemble(raw), before.regs.gpr, NextPc(before.regs));
              && (after.regs.flag <==> delayed.Some?)
              && (after.regs.flag ==> after.regs.target == delayed.value)
              && after.regs.pc == if compact.Some? then compact.value else NextPc(before.regs)
  {
    hide EffectAt, Disassemble, DelayedTarget, CompactTarget, Read;
    var before := Run(env, m, n);
    StepUnfolds(env, before);
    if Fetch(env, before).Ok? { TransfersOf(env, before, Fetch(env, before).value); }
  }

  /** A taken delayed branch to t: the next instruction is the one that was already due, and after that one
      the machine is at t, unless the slot holds a taken compact branch or jump. */
  lemma DelaySlot(env: Env, m: Machine, t: Word)
    requires Fetch(env, m).Ok?
    requires DelayedTarget(Disassemble(Fetch(env, m).value), m.regs.gpr, NextPc(m.regs)) == Some(t)
    ensures Step(env, m).ok
    ensures var slot := Step(env, m).machine;
            && slot.regs.pc == NextPc(m.regs)
            && (!m.regs.flag ==> slot.regs.pc == Wrap(m.regs.pc + 4))
            && var last := Step(env, slot).machine;
               match Fetch(env, slot)
               case Err(_) => last == slot
               case Ok(raw) =>
                 var compact := CompactTarget(Disassemble(raw), slot.regs.gpr, t);
                 last.regs.pc == if compact.Some? then compact.value else t
  {
    hide EffectAt, Disassemble, DelayedTarget, CompactTarget, Read;
    var slot := Step(env, m).machine;
    StepUnfolds(env, m);
    StepUnfolds(env, slot);
    TransfersOf(env, m, Fetch(env, m).value);
    if Fetch(env, slot).Ok? { TransfersOf(env, slot, Fetch(env, slot).value); }
  }

  /** A linking jump writes the address of the next instruction due. For the delayed ones that is the slot
      itself, so a return to $31 runs the slot instruction a second time. */
  lemma LinkIsTheSlot(env: Env, m: Machine)
    requires Fetch(env, m).Ok?
    requires match Disassemble(Fetch(env, m).value)
             case Some(JumpReg(_, link)) => link
             case Some(JumpRegion(_, link)) => link
             case _ => false
    ensures var slot := Step(env, m).machine;
            && slot.regs.gpr[RA] == NextPc(m.regs) == slot.regs.pc
            && slot.regs.flag
            && (!m.regs.flag ==> slot.regs.gpr[RA] == Wrap(m.regs.pc + 4) != Wrap(m.regs.pc + 8))
  {
    hide Disassemble, Read;
    StepUnfolds(env, m);
  }

  // ---- Failure ----

  /** A failed step leaves every register and every byte of memory as it was. */
  lemma FailedStepIsAtomic(env: Env, m: Machine)
    requires !Step(env, m).ok
    ensures var after := Step(env, m).machine;
            && after.mem == m.mem && after.regs.gpr == m.regs.gpr
            && match Fetch(env, m)
               case Err(_) => after == m
               case Ok(raw) =>
                 after.regs == if EffectAt(env, m, raw) == Trap
                               then UpdatePc(m.regs).(badInstr := raw, cause := CAUSE_TR)
                               else UpdatePc(m.regs)
  {
    hide EffectOf, Read;
    StepUnfolds(env, m);
  }

  /** However many steps fail one after the other, no register and no byte of memory changes. */
  lemma {:induction false} FailedRunIsAtomic(env: Env, m: Machine, n: nat)
    ensures (forall k: nat :: k < n ==> !Step(env, Run(env, m, k)).ok) ==>
              Run(env, m, n).mem == m.mem && Run(env, m, n).regs.gpr == m.regs.gpr
  {
    hide Step, Fetch, EffectAt, UpdatePc;
    if n > 0 && forall k: nat :: k < n ==> !Step(env, Run(env, m, k)).ok {
      FailedRunIsAtomic(env, m, n - 1);
      FailedStepIsAtomic(env, Run(env, m, n - 1));
    }
  }

  /** Once the fetch fails, the machine is stuck for good. */
  lemma {:induction false} FetchFailureAbsorbs(env: Env, m: Machine, n: nat)
    requires Fetch(env, m).Err?
    ensures Run(env, m, n) == m && !Step(env, Run(env, m, n)).ok
  {
    hide Read;
    if n > 0 { FetchFailureAbsorbs(env, m, n - 1); }
  }

  lemma UpdatePcMoves(r: Regs)
    ensures UpdatePc(r).pc != r.pc || UpdatePc(r).flag != r.flag
  {}

  /** The machine stands still in a failed step if and only if the fetch failed: every other failure moves on to
      the next instruction due. */
  lemma StandsStillIff(env: Env, m: Machine)
    ensures !Step(env, m).ok && Step(env, m).machine == m <==> Fetch(env, m).Err?
  {
    hide EffectAt, Read, UpdatePc;
    StepUnfolds(env, m);
    UpdatePcMoves(m.regs);
  }

  // ---- Exactly when a step succeeds ----

  /** The words the executor implements, by their fields. */
  predicate Implemented(raw: Word) {
    var op, func, rt := Op(raw), Func(raw), Rt(raw);
    || (op == 0 && (func in {0, 2, 3, 4, 6, 7, 8, 9, 11, 16} || 24 <= func <= 27 || 32 <= func <= 39 || func == 42
                    || func == 43 || 48 <= func <= 55))
    || (op == 1 && rt <= 1)
    || 2 <= op <= 15 || 22 <= op <= 24 || op in {32, 33, 35, 36, 37, 40, 41, 43, 50, 54, 58, 62}
    || (op == 31 && func == 32 && Shamt(raw) in {0, 2, 8, 9, 10, 11, 16, 24})
    || (op == 31 && func == 0 && Shamt(raw) + Rd(raw) <= 31)
    || (op == 31 && func == 4 && Shamt(raw) <= Rd(raw))
    || (op == 59 && (PcFunc1(raw) <= 1 || rt >= 30))
  }

  lemma ImplementedIsDisassembled(raw: Word)
    ensures Disassemble(raw).Some? <==> Implemented(raw)
  {
    hide SignedField, Imm16, Imm21, Imm26, Imm19, Rs;
    PcRelFunctions(raw);
  }

  /** Whatever family the classifier names, only these words of it reach a handler's default: none at all of
      the I-type, long-immediate, J-type and first PC-relative families, and every FPU word. */
  lemma FamiliesWithoutDefault(raw: Word)
    ensures GetType(raw) in {Some(IType), Some(LongImmIType), Some(JType), Some(PcRelType1)} ==> Disassemble(raw).Some?
    ensures GetType(raw) in {None, Some(FpuRType), Some(FpuBType), Some(FpuTType)} ==> Disassemble(raw).None?
  {
    hide SignedField, Imm16, Imm21, Imm26, Imm19, Rs, Disassemble;
    ImplementedIsDisassembled(raw);
  }

  predicate Accepted(env: Env, mem: seq<Byte>, addr: Word, width: nat) {
    && (env.bus.aligned && width > 1 ==> addr % width == 0)
    && env.bus.offset <= addr && addr - env.bus.offset + width < |mem| % TWO32
  }

  /** What an implemented instruction still needs from the machine's state. */
  predicate Runnable(env: Env, i: Instr, m: Machine)
    requires WellFormed(i)
  {
    match i
    case Alu(op, _, _, rt) => op in {Div, Mod, Divu, Modu} ==> m.regs.gpr[rt] != 0
    case TrapIf(cond, rs, rt) => cond.Negate().Holds(m.regs.gpr[rs], m.regs.gpr[rt])
    case Load(width, _, _, rs, offset) => Accepted(env, m.mem, Wrap(m.regs.gpr[rs] + offset), width)
    case Store(width, _, rs, offset) => Accepted(env, m.mem, Wrap(m.regs.gpr[rs] + offset), width)
    case LoadPc(_, distance) => Accepted(env, m.mem, Wrap(NextPc(m.regs) + distance), 4)
    case _ => true
  }

  lemma EffectSucceeds(env: Env, i: Instr, m: Machine)
    requires WellFormed(i)
    ensures Meaning(env, i, m.regs.gpr, NextPc(m.regs), m.mem).Succeeds() <==> Runnable(env, i, m)
  {
    hide ImmValue, ShiftValue, ReverseBytes, SwapHalfwordBytes, AlignShift, ExtractField, InsertField, LittleEndian;
    hide Bytes, Signed, SignedField, LoadedValue, And, Or, Xor, LeadingZeros, LowProduct, HighSigned, HighUnsigned;
    hide Quotient, Remainder, QuotientUnsigned, RemainderUnsigned, Wrap, Keep;
  }

  /** A step succeeds if and only if the word at pc can be read, is implemented, and is runnable. */
  lemma StepSucceedsIff(env: Env, m: Machine)
    ensures Fetch(env, m).Ok? <==> Accepted(env, m.mem, m.regs.pc, 4)
    ensures Step(env, m).ok <==>
            && Fetch(env, m).Ok?
            && var raw := Fetch(env, m).value;
               Implemented(raw) && Disassemble(raw).Some? && Runnable(env, Disassemble(raw).value, m)
  {
    hide Meaning, Disassemble, Implemented, Runnable, LittleEndian;
    StepUnfolds(env, m);
    if Fetch(env, m).Ok? {
      var raw := Fetch(env, m).value;
      ImplementedIsDisassembled(raw);
      if Disassemble(raw).Some? { EffectSucceeds(env, Disassemble(raw).value, m); }
    }
  }

  // ---- What a step may change ----

  /** At every point of every run $0 reads as zero and the memory has its size, so that the same accesses are
      accepted throughout. */
  lemma {:induction false} RunInvariants(env: Env, m: Machine, n: nat)
    requires m.regs.gpr[0] == 0
    ensures Run(env, m, n).regs.gpr[0] == 0 && |Run(env, m, n).mem| == |m.mem|
    ensures forall addr: Word, width: nat ::
              Accepted(env, Run(env, m, n).mem, addr, width) == Accepted(env, m.mem, addr, width)
  {
    hide EffectOf, Read;
    if n > 0 {
      RunInvariants(env, m, n - 1);
      StepUnfolds(env, Run(env, m, n - 1));
    }
  }

  predicate Changed(m: Machine, m': Machine, r: Reg) {
    m.regs.gpr[r] != m'.regs.gpr[r]
  }

  predicate WritesOnly(mem: seq<Byte>, mem': seq<Byte>, i: nat, width: nat) {
    && |mem| == |mem'| && (width == 0 || (IsWidth(width) && i + width < |mem|))
    && forall k :: 0 <= k < |mem| && mem[k] != mem'[k] ==> i <= k < i + width
  }

  /** How many bytes the step from m stores, and where; no byte at all counts as width 0. */
  function StoreWindow(env: Env, m: Machine): (nat, nat) {
    match Fetch(env, m)
    case Err(_) => (0, 0)
    case Ok(raw) =>
      match EffectAt(env, m, raw)
      case Stored(i, b) => (i, |b|)
      case _ => (0, 0)
  }

  lemma StoredWidth(env: Env, raw: Word, gpr: Gpr, pc: Word, mem: seq<Byte>)
    ensures var e := EffectOf(env, raw, gpr, pc, mem);
            e.Stored? ==> IsWidth(|e.bytes|)
  {
    hide Disassemble, AluValue, ImmValue, ShiftValue, Cond.Holds, Read, Locate, Bytes, Wrap;
  }

  lemma StepChanges(env: Env, m: Machine)
    requires m.regs.gpr[0] == 0
    ensures var after := Step(env, m).machine;
            && (forall j: Reg, k: Reg :: Changed(m, after, j) && Changed(m, after, k) ==> j == k)
            && (m.mem == after.mem || m.regs.gpr == after.regs.gpr)
            && WritesOnly(m.mem, after.mem, StoreWindow(env, m).0, StoreWindow(env, m).1)
  {
    hide EffectOf, Read;
    StepUnfolds(env, m);
    if Fetch(env, m).Ok? {
      StoredWidth(env, Fetch(env, m).value, m.regs.gpr, NextPc(m.regs), m.mem);
    }
  }

  /** Between two consecutive points of a run at most one register changes, memory changes only inside one
      access of 1, 2 or 4 bytes strictly inside the buffer, and never both. */
  lemma OneChangeAtATime(env: Env, m: Machine, n: nat)
    requires m.regs.gpr[0] == 0
    ensures var before, after := Run(env, m, n), Run(env, m, n + 1);
            && (forall j: Reg, k: Reg :: Changed(before, after, j) && Changed(before, after, k) ==> j == k)
            && (before.mem == after.mem || before.regs.gpr == after.regs.gpr)
            && WritesOnly(before.mem, after.mem, StoreWindow(env, before).0, StoreWindow(env, before).1)
  {
    hide Step, StoreWindow, WritesOnly, Changed;
    RunInvariants(env, m, n);
    StepChanges(env, Run(env, m, n));
  }

  // ---- What a step may read ----

  /** Where the instruction raw would load from; no byte at all counts as width 0. */
  function LoadWindow(env: Env, m: Machine, raw: Word): (nat, nat) {
    match Disassemble(raw)
    case Some(Load(width, _, _, rs, offset)) => WindowAt(env, m, Wrap(m.regs.gpr[rs] + offset), width)
    case Some(LoadPc(_, distance)) => WindowAt(env, m, Wrap(NextPc(m.regs) + distance), 4)
    case _ => (0, 0)
  }

  function WindowAt(env: Env, m: Machine, addr: Word, width: nat): (nat, nat) {
    match Locate(env.bus, |m.mem|, addr, width)
    case Err(_) => (0, 0)
    case Ok(i) => (i, width)
  }

  predicate AgreeOn(mem: seq<Byte>, mem': seq<Byte>, window: (nat, nat)) {
    |mem| == |mem'| && forall k :: window.0 <= k < window.0 + window.1 && k < |mem| ==> mem[k] == mem'[k]
  }

  lemma ReadsAgree(env: Env, m: Machine, m': Machine, addr: Word, width: nat)
    requires IsWidth(width) && AgreeOn(m.mem, m'.mem, WindowAt(env, m, addr, width))
    ensures Read(env.bus, m.mem, addr, width) == Read(env.bus, m'.mem, addr, width)
  {
    hide LittleEndian;
    match Locate(env.bus, |m.mem|, addr, width)
    case Ok(i) => assert m.mem[i..i + width] == m'.mem[i..i + width];
    case Err(_) =>
  }

  lemma EffectsAgree(env: Env, m: Machine, m': Machine, raw: Word)
    requires m.regs == m'.regs && AgreeOn(m.mem, m'.mem, LoadWindow(env, m, raw))
    ensures EffectAt(env, m, raw) == EffectAt(env, m', raw)
  {
    hide Disassemble, Compute, Read, Locate, Bytes, LoadedValue, AgreeOn, WindowAt, Wrap;
    assert |m.mem| == |m'.mem| by { SameSize(m.mem, m'.mem, LoadWindow(env, m, raw)); }
    match Disassemble(raw)
    case Some(Load(width, _, _, rs, offset)) => ReadsAgree(env, m, m', Wrap(m.regs.gpr[rs] + offset), width);
    case Some(LoadPc(_, distance)) => ReadsAgree(env, m, m', Wrap(NextPc(m.regs) + distance), 4);
    case _ =>
  }

  lemma SameSize(mem: seq<Byte>, mem': seq<Byte>, window: (nat, nat))
    requires AgreeOn(mem, mem', window)
    ensures |mem| == |mem'|
  {}

  /** A step depends on no byte of memory but the four of its instruction and those of its own load: machines
      that agree on these have the same outcome, the same registers afterwards, and store the same bytes. */
  lemma StepReadsOnly(env: Env, m: Machine, m': Machine)
    requires m.regs == m'.regs
    requires AgreeOn(m.mem, m'.mem, WindowAt(env, m, m.regs.pc, 4))
    requires Fetch(env, m).Ok? ==> AgreeOn(m.mem, m'.mem, LoadWindow(env, m, Fetch(env, m).value))
    ensures Step(env, m).ok == Step(env, m').ok && Step(env, m).machine.regs == Step(env, m').machine.regs
    ensures StoreWindow(env, m) == StoreWindow(env, m')
    ensures forall k :: StoreWindow(env, m).0 <= k < StoreWindow(env, m).0 + StoreWindow(env, m).1 ==>
              k < |m.mem| == |m'.mem| && Step(env, m).machine.mem[k] == Step(env, m').machine.mem[k]
  {
    hide EffectOf, Read, LoadWindow, WindowAt, LittleEndian;
    ReadsAgree(env, m, m', m.regs.pc, 4);
    StepUnfolds(env, m);
    StepUnfolds(env, m');
    if Fetch(env, m).Ok? { EffectsAgree(env, m, m', Fetch(env, m).value); }
  }

  // ---- What a step owes to the host ----

  /** The instructions whose result on these registers is a word of the host's, unless the register written is $0
      or every choice of that word gives the same result. */
  predicate DependsOnHost(i: Instr, gpr: Gpr) {
    match i
    case Shift(Sra, rd, rt, amount) =>
      rd != 0 && AmountOf(amount, gpr) == 0 && Signed(gpr[rt]) < 0 && gpr[rt] != ALL_ONES
    case Shift(Rotr, rd, rt, amount) => rd != 0 && AmountOf(amount, gpr) == 0 && gpr[rt] != ALL_ONES
    case Alu(op, rd, rs, rt) => rd != 0 && (op == Div || op == Mod) && DivideOverflows(gpr[rs], gpr[rt])
    case _ => false
  }

  predicate HostMatters(bus: Bus, m: Machine) {
    match Read(bus, m.mem, m.regs.pc, 4)
    case Err(_) => false
    case Ok(raw) => Disassemble(raw).Some? && DependsOnHost(Disassemble(raw).value, m.regs.gpr)
  }

  /** The registers after a write, which cannot change $0. */
  function Written(gpr: Gpr, e: Effect): Gpr {
    if e.Done? then WriteGpr(gpr, e.write) else gpr
  }

  lemma OrAllOnes(x: Word)
    ensures Or(ALL_ONES, x) == Or(x, ALL_ONES) == ALL_ONES
  {
    Pow2At32();
    forall i | 0 <= i < 32
      ensures Bit(Or(ALL_ONES, x), i) == Bit(Or(x, ALL_ONES), i) == Bit(ALL_ONES, i)
    {
      BitOfOr(ALL_ONES, x, i);
      BitOfOr(x, ALL_ONES, i);
      BitOfOnes(32, i);
    }
    WordExtensional(Or(ALL_ONES, x), ALL_ONES);
    WordExtensional(Or(x, ALL_ONES), ALL_ONES);
  }

  /** Two effects that put the machine in the same state with the same outcome. */
  predicate SameOutcome(e: Effect, e': Effect, gpr: Gpr) {
    || e == e'
    || (e.Done? && e'.Done? && e.control == e'.control && WriteGpr(gpr, e.write) == WriteGpr(gpr, e'.write))
  }

  lemma WriteToZero(gpr: Gpr, v: Word, v': Word)
    ensures WriteGpr(gpr, To(0, v)) == WriteGpr(gpr, To(0, v'))
  {}

  lemma ShiftsAgree(h: Host, h': Host, op: ShiftOp, x: Word, s: nat)
    requires s < 32
    requires s == 0 && (op == Rotr || (op == Sra && Signed(x) < 0)) ==> x == ALL_ONES
    ensures ShiftValue(h, op, x, s) == ShiftValue(h', op, x, s)
  {
    hide Or, ArithmeticShift, RotateRight, Lift, Drop;
    if x == ALL_ONES {
      OrAllOnes(h.shl32(x));
      OrAllOnes(h'.shl32(x));
    }
  }

  /** Whatever else the instruction is, no host makes a difference. */
  lemma HostsAgree(h: Host, h': Host, i: Instr, gpr: Gpr, pc: Word)
    requires WellFormed(i) && !DependsOnHost(i, gpr)
    ensures SameOutcome(Compute(h, i, gpr, pc), Compute(h', i, gpr, pc), gpr)
  {
    hide ShiftValue, ImmValue, ReverseBytes, SwapHalfwordBytes, AlignShift, ExtractField, InsertField, Signed;
    hide And, Or, Xor, LeadingZeros, LowProduct, HighSigned, HighUnsigned, TruncDiv, TruncMod, Wrap, WriteGpr;
    hide QuotientUnsigned, RemainderUnsigned, DivideOverflows, SignedField, Keep, Cond.Holds;
    match i
    case Shift(op, rd, rt, amount) =>
      if rd == 0 {
        WriteToZero(gpr, ShiftValue(h, op, gpr[rt], AmountOf(amount, gpr)),
                    ShiftValue(h', op, gpr[rt], AmountOf(amount, gpr)));
      } else {
        ShiftsAgree(h, h', op, gpr[rt], AmountOf(amount, gpr));
      }
    case Alu(op, rd, rs, rt) =>
      if rd == 0 && gpr[rt] != 0 && (op == Div || op == Mod) {
        WriteToZero(gpr, Quotient(h, gpr[rs], gpr[rt]), Quotient(h', gpr[rs], gpr[rt]));
        WriteToZero(gpr, Remainder(h, gpr[rs], gpr[rt]), Remainder(h', gpr[rs], gpr[rt]));
      }
    case _ =>
  }

  // Two hosts that differ in every undefined result.
  const ZERO_HOST: Host := Host(x => 0, 0, 0)
  const ONES_HOST: Host := Host(x => ALL_ONES, 1, 1)

  lemma HostsDiffer(i: Instr, gpr: Gpr, pc: Word)
    requires WellFormed(i) && DependsOnHost(i, gpr)
    ensures Written(gpr, Compute(ZERO_HOST, i, gpr, pc)) != Written(gpr, Compute(ONES_HOST, i, gpr, pc))
  {
    hide Or, TruncDiv, TruncMod, Wrap, Signed;
    match i
    case Shift(op, rd, rt, amount) =>
      var x := gpr[rt];
      OrAllOnes(x);
      OrZero(x);
      DifferentWrites(gpr, rd, x, ALL_ONES);
    case Alu(op, rd, rs, rt) => DifferentWrites(gpr, rd, 0, 1);
  }

  lemma DifferentWrites(gpr: Gpr, r: Reg, v: Word, v': Word)
    requires r != 0 && v != v'
    ensures WriteGpr(gpr, To(r, v)) != WriteGpr(gpr, To(r, v'))
  {
    assert WriteGpr(gpr, To(r, v))[r] == v && WriteGpr(gpr, To(r, v'))[r] == v';
  }

  lemma StepsAgree(bus: Bus, h: Host, h': Host, m: Machine)
    requires !HostMatters(bus, m)
    ensures Step(Env(bus, h), m) == Step(Env(bus, h'), m)
  {
    hide Disassemble, DependsOnHost, Compute, Read, Locate, Bytes, LoadedValue, WriteGpr, Wrap;
    match Read(bus, m.mem, m.regs.pc, 4)
    case Err(_) =>
    case Ok(raw) =>
      if Disassemble(raw).Some? {
        HostsAgree(h, h', Disassemble(raw).value, m.regs.gpr, NextPc(m.regs));
      }
  }

  lemma StepsDiffer(bus: Bus, m: Machine)
    requires HostMatters(bus, m)
    ensures Step(Env(bus, ZERO_HOST), m) != Step(Env(bus, ONES_HOST), m)
  {
    hide Disassemble, Compute, Read, WriteGpr, Wrap;
    var raw := Read(bus, m.mem, m.regs.pc, 4).value;
    var i := Disassemble(raw).value;
    HostsDiffer(i, m.regs.gpr, NextPc(m.regs));
    RegsAfter(Env(bus, ZERO_HOST), m, raw, i);
    RegsAfter(Env(bus, ONES_HOST), m, raw, i);
  }

  lemma RegsAfter(env: Env, m: Machine, raw: Word, i: Instr)
    requires Read(env.bus, m.mem, m.regs.pc, 4) == Ok(raw) && Disassemble(raw) == Some(i)
    requires DependsOnHost(i, m.regs.gpr)
    ensures Step(env, m).machine.regs.gpr == Written(m.regs.gpr, Compute(env.host, i, m.regs.gpr, NextPc(m.regs)))
  {
    hide Disassemble, Compute, Read, WriteGpr, Wrap, Signed;
  }

  /** A step depends on the Host parameter if and only if it executes an SRA by 0 of a negative word, a rotation
      by 0, or INT32_MIN / -1, with a result that can differ and a register that can hold it. */
  lemma HostMattersIff(bus: Bus, m: Machine)
    ensures (exists h: Host, h': Host :: Step(Env(bus, h), m) != Step(Env(bus, h'), m)) <==> HostMatters(bus, m)
  {
    hide Step, HostMatters;
    if HostMatters(bus, m) { StepsDiffer(bus, m); }
    forall h: Host, h': Host | Step(Env(bus, h), m) != Step(Env(bus, h'), m)
      ensures HostMatters(bus, m)
    {
      if !HostMatters(bus, m) { StepsAgree(bus, h, h', m); }
    }
  }

  /** A run that executes no such instruction is the same on every host. */
  lemma {:induction false} RunsAgree(bus: Bus, h: Host, h': Host, m: Machine, n: nat)
    ensures (forall k: nat :: k < n ==> !HostMatters(bus, Run(Env(bus, h), m, k))) ==>
              Run(Env(bus, h), m, n) == Run(Env(bus, h'), m, n)
  {
    hide Step, HostMatters;
    if n > 0 && forall k: nat :: k < n ==> !HostMatters(bus, Run(Env(bus, h), m, k)) {
      RunsAgree(bus, h, h', m, n - 1);
      StepsAgree(bus, h, h', Run(Env(bus, h), m, n - 1));
    }
  }

  // ---- Alignment ----

  predicate IsAligned(w: Word) {
    w % 4 == 0
  }

  predicate WordAligned(m: Machine) {
    IsAligned(m.regs.pc) && (m.regs.flag ==> IsAligned(m.regs.target))
  }

  /** Register-indirect jumps are the only ones whose target is not a multiple of four by construction. */
  function IndirectTarget(i: Instr, gpr: Gpr, pc: Word): Word {
    match i
    case JumpReg(rs, _) => gpr[rs]
    case JumpIndexed(rt, offset, link) => Wrap((if link && rt == RA then pc else gpr[rt]) + offset)
    case _ => 0
  }

  predicate IndirectTargetAligned(env: Env, m: Machine) {
    match Fetch(env, m)
    case Err(_) => true
    case Ok(raw) =>
      match Disassemble(raw)
      case None => true
      case Some(i) => IsAligned(IndirectTarget(i, m.regs.gpr, NextPc(m.regs)))
  }

  lemma AlignedSum(pc: Word, offset: int)
    requires IsAligned(pc)
    ensures IsAligned(Wrap(pc + 4 * offset))
  {
    var n := pc + 4 * offset;
    assert Wrap(n) == 4 * (pc / 4 + offset - n / TWO32 * 0x4000_0000);
  }

  /** The target of a control transfer, with 0 for none. */
  function ControlTarget(e: Effect): Word {
    if e.Done? && !e.control.Next? then e.control.target else 0
  }

  /** From an aligned pc, a control transfer is misaligned only if it is an indirect one. */
  lemma TransferAligned(env: Env, i: Instr, gpr: Gpr, pc: Word, mem: seq<Byte>)
    requires WellFormed(i) && IsAligned(pc)
    ensures IsAligned(ControlTarget(Meaning(env, i, gpr, pc, mem))) <==> IsAligned(IndirectTarget(i, gpr, pc))
  {
    hide AluValue, ImmValue, ShiftValue, Cond.Holds, Read, Locate, Bytes, Wrap;
    if i.Branch? { AlignedSum(pc, i.offset); }
    if i.JumpRegion? { AlignedSum(0, pc / 0x1000_0000 * 0x400_0000 + i.index); }
  }

  lemma EffectAligned(env: Env, m: Machine, raw: Word)
    requires IsAligned(NextPc(m.regs)) && Fetch(env, m) == Ok(raw)
    ensures IsAligned(ControlTarget(EffectAt(env, m, raw))) <==> IndirectTargetAligned(env, m)
  {
    hide Disassemble, Meaning, Read, IndirectTarget, IsAligned;
    if Disassemble(raw).Some? {
      TransferAligned(env, Disassemble(raw).value, m.regs.gpr, NextPc(m.regs), m.mem);
    } else {
      assert IsAligned(0) by { AlignedZero(); }
    }
  }

  lemma AlignedZero()
    ensures IsAligned(0)
  {}

  /** A step from an aligned machine ends in an aligned one if and only if it executes no register-indirect
      jump to a misaligned target. */
  lemma StepAlignedIff(env: Env, m: Machine)
    requires WordAligned(m)
    ensures WordAligned(Step(env, m).machine) <==> IndirectTargetAligned(env, m)
  {
    hide EffectAt, Disassemble, Read, IsAligned, Step, Wrap;
    StepUnfolds(env, m);
    if Fetch(env, m).Ok? {
      AlignedSum(m.regs.pc, 1);
      EffectAligned(env, m, Fetch(env, m).value);
      AlignedZero();
    }
  }

  /** The points of a run up to and including n. */
  predicate AlignedUpTo(env: Env, m: Machine, n: nat) {
    forall k: nat :: k <= n ==> WordAligned(Run(env, m, k))
  }

  predicate IndirectAlignedBefore(env: Env, m: Machine, n: nat) {
    forall k: nat :: k < n ==> IndirectTargetAligned(env, Run(env, m, k))
  }

  /** The whole run up to n stays word-aligned if and only if no step of it jumps indirectly to a misaligned
      target. */
  lemma {:induction false} RunAlignedIff(env: Env, m: Machine, n: nat)
    requires WordAligned(m)
    ensures AlignedUpTo(env, m, n) <==> IndirectAlignedBefore(env, m, n)
  {
    hide WordAligned, IndirectTargetAligned, Step;
    if n > 0 {
      RunAlignedIff(env, m, n - 1);
      var last := Run(env, m, n - 1);
      assert Run(env, m, n) == Step(env, last).machine;
      assert AlignedUpTo(env, m, n) <==> AlignedUpTo(env, m, n - 1) && WordAligned(Run(env, m, n));
      assert IndirectAlignedBefore(env, m, n)
        <==> IndirectAlignedBefore(env, m, n - 1) && IndirectTargetAligned(env, last);
      if AlignedUpTo(env, m, n - 1) {
        assert WordAligned(last);
        StepAlignedIff(env, last);
      }
    } else {
      assert Run(env, m, 0) == m;
    }
  }
}

/** The handlers and step, as the source executes them, proved to perform the reference machine's effects. */
module Executor {
  import opened Words
  import opened Instructions
  import opened Isa
  import opened RegisterFiles
  import opened BitTricks
  import opened Memories

  ghost predicate Performed(e: Effect, raw: Word, before: Regs, after: Regs, ok: bool) {
    after == ApplyRegs(e, raw, before) && ok == e.Succeeds()
  }

  // ---- R-type ----

  predicate IsArithmetic(func: int) {
    func == 11 || func == 16 || 24 <= func <= 27 || 32 <= func <= 39 || func == 42 || func == 43 || func == 53
    || func == 55
  }

  predicate IsShift(func: int) {
    func == 0 || 2 <= func <= 4 || func == 6 || func == 7
  }

  /** The SOP helper: shamt tells the two instructions of a SOP function apart. */
  function SopResult(raw: Word, shamt2: Word, shamt3: Word): Option<Word> {
    Some(if Shamt(raw) == 2 then shamt2 else shamt3)
  }

  /** The value of the arithmetic cases; None where the source returns false. */
  method ArithmeticValue(host: Host, raw: Word, rs: Word, rt: Word) returns (value: Option<Word>)
    requires IsArithmetic(Func(raw))
    ensures DisassembleRType(raw).Some? && DisassembleRType(raw).value.Alu?
    ensures value == AluValue(host, DisassembleRType(raw).value.alu, rs, rt)
  {
    hide Op, Rs, Rt, Rd, Shamt, Func, Imm16;
    hide And, Or, Xor, LeadingZeros, Wrap, Signed, LowProduct, HighSigned, HighUnsigned;
    hide MulSigned, MulUnsigned, HiMulSigned, HiMulUnsigned;
    hide Quotient, Remainder, QuotientUnsigned, RemainderUnsigned;
    MulMeaning(rs, rt);
    HiMulMeaning(rs, rt);
    match Func(raw)
    case 32 => SumSigned(rs, rt); return Some(Wrap(Signed(rs) + Signed(rt)));
    case 33 => return Some(Wrap(rs + rt));
    case 34 => SumSigned(rs, rt); return Some(Wrap(Signed(rs) - Signed(rt)));
    case 35 => return Some(Wrap(rs - rt));
    case 24 => return SopResult(raw, MulSigned(rs, rt), HiMulSigned(rs, rt));
    case 25 => return SopResult(raw, MulUnsigned(rs, rt), HiMulUnsigned(rs, rt));
    case 26 =>
      if rt == 0 { return None; }
      return SopResult(raw, Quotient(host, rs, rt), Remainder(host, rs, rt));
    case 27 =>
      if rt == 0 { return None; }
      return SopResult(raw, QuotientUnsigned(rs, rt), RemainderUnsigned(rs, rt));
    case 36 => return Some(And(rs, rt));
    case 39 => return Some(Not(Or(rs, rt)));
    case 37 => return Some(Or(rs, rt));
    case 38 => return Some(Xor(rs, rt));
    case 42 => return Some(if Signed(rs) < Signed(rt) then 1 else 0);
    case 43 => return Some(if rs < rt then 1 else 0);
    case 53 => return Some(if rt != 0 then 0 else rs);
    case 55 => return Some(if rt != 0 then rs else 0);
    case 16 =>
      var count := CountLeadingZeros(rs);
      return Some(count);
    case 11 =>
      var count := CountLeadingOnes(rs);
      return Some(count);
  }

  lemma LowFive(x: Word)
    ensures And(x, 0x1F) == x % 32
  {
    Pow2Table();
    AndField(x, 0, 5, 1, 32, 0x1F);
  }

  /** The value of the shift cases; the amount is a field or the low five bits of rs. */
  method ShiftedValue(host: Host, raw: Word, rs: Word, rt: Word) returns (value: Word)
    requires IsShift(Func(raw))
    ensures DisassembleRType(raw).Some? && DisassembleRType(raw).value.Shift?
    ensures var i := DisassembleRType(raw).value;
            value == ShiftValue(host, i.shift, rt, match i.amount case Fixed(n) => n case ByReg(_) => rs % 32)
  {
    hide Op, Rs, Rt, Rd, Shamt, Func, Imm16;
    hide And, Or, Shr, BitTricks.Sra, BitTricks.Rotr, ArithmeticShift, RotateRight, Lift, Drop;
    LowFive(rs);
    match Func(raw)
    case 0 => return Shl(rt, Shamt(raw));
    case 4 => return Shl(rt, And(rs, 0x1F));
    case 3 =>
      SraMeaning(host, rt, Shamt(raw));
      return BitTricks.Sra(host, rt, Shamt(raw));
    case 7 =>
      var amount := And(rs, 0x1F);
      SraMeaning(host, rt, amount);
      return BitTricks.Sra(host, rt, amount);
    case 2 =>
      RotrMeaning(host, rt, Shamt(raw));
      ShrIsDrop(rt, Shamt(raw));
      return if Rs(raw) % 2 == 1 then BitTricks.Rotr(host, rt, Shamt(raw)) else Shr(rt, Shamt(raw));
    case 6 =>
      var shift := And(rs, 0x1F);
      RotrMeaning(host, rt, shift);
      ShrIsDrop(rt, shift);
      return if Shamt(raw) % 2 == 1 then BitTricks.Rotr(host, rt, shift) else Shr(rt, shift);
  }

  method TrapOnCond(condition: bool, raw: Word, rf: RegisterFile) returns (ok: bool)
    requires rf.Valid()
    modifies rf
    ensures rf.Valid()
    ensures Performed(if condition then Trap else Done(NoWrite, Next), raw, old(rf.State()), rf.State(), ok)
  {
    if condition { rf.SignalException(CAUSE_TR, raw); }
    ok := !condition;
  }

  predicate IsTrap(func: int) {
    48 <= func <= 52 || func == 54
  }

  predicate TrapCondition(func: int, rs: Word, rt: Word)
    requires IsTrap(func)
  {
    match func
    case 52 => rs == rt
    case 48 => Signed(rs) >= Signed(rt)
    case 49 => rs >= rt
    case 50 => Signed(rs) < Signed(rt)
    case 51 => rs < rt
    case 54 => rs != rt
  }

  lemma JumpOrTrapEffect(host: Host, raw: Word, gpr: Gpr, pc: Word)
    requires !IsArithmetic(Func(raw)) && !IsShift(Func(raw))
    ensures Attempt(host, DisassembleRType(raw), gpr, pc) == (
              if Func(raw) == 8 || Func(raw) == 9 then
                Done(Link(Func(raw) == 9, pc), After(gpr[Rs(raw)]))
              else if !IsTrap(Func(raw)) then Fail
              else if TrapCondition(Func(raw), gpr[Rs(raw)], gpr[Rt(raw)]) then Trap
              else Done(NoWrite, Next))
  {
    hide Op, Rs, Rt, Rd, Shamt, Func, Imm16;
    hide Signed, AluValue, ShiftValue, ImmValue;
  }

  /** The jump and trap cases, and the default. */
  method JumpOrTrap(host: Host, raw: Word, rf: RegisterFile, rs: Word, rt: Word) returns (ok: bool)
    requires rf.Valid() && rs == rf.State().gpr[Rs(raw)] && rt == rf.State().gpr[Rt(raw)]
    requires !IsArithmetic(Func(raw)) && !IsShift(Func(raw))
    modifies rf, rf.regs
    ensures rf.Valid()
    ensures Performed(Attempt(host, DisassembleRType(raw), old(rf.State()).gpr, old(rf.pc)), raw,
                      old(rf.State()), rf.State(), ok)
  {
    hide Op, Rs, Rt, Rd, Shamt, Func, Imm16;
    hide DisassembleRType, Compute, TrapCondition;
    JumpOrTrapEffect(host, raw, rf.State().gpr, rf.pc);
    if Func(raw) == 8 {
      rf.DelayedBranch(rs);
      return true;
    } else if Func(raw) == 9 {
      var pc := rf.GetPc();
      rf.SetUnsigned(RA, pc);
      rf.DelayedBranch(rs);
      return true;
    } else if IsTrap(Func(raw)) {
      ok := TrapOnCond(TrapCondition(Func(raw), rs, rt), raw, rf);
    } else {
      return false;
    }
  }

  method HandleRType(host: Host, raw: Word, rf: RegisterFile) returns (ok: bool)
    requires rf.Valid()
    modifies rf, rf.regs
    ensures rf.Valid()
    ensures Performed(Attempt(host, DisassembleRType(raw), old(rf.State()).gpr, old(rf.pc)), raw,
                      old(rf.State()), rf.State(), ok)
  {
    hide Op, Rs, Rt, Rd, Shamt, Func, Imm16;
    hide DisassembleRType, AluValue, ShiftValue, Compute;
    var rs := rf.Get(Rs(raw));
    var rt := rf.Get(Rt(raw));
    RTypeEffect(host, raw, rf.State().gpr, rf.pc);
    if IsArithmetic(Func(raw)) {
      var value := ArithmeticValue(host, raw, rs, rt);
      if value.None? { return false; }
      rf.SetUnsigned(Rd(raw), value.value);
      return true;
    } else if IsShift(Func(raw)) {
      var value := ShiftedValue(host, raw, rs, rt);
      rf.SetUnsigned(Rd(raw), value);
      return true;
    } else {
      ok := JumpOrTrap(host, raw, rf, rs, rt);
    }
  }

  lemma RTypeEffect(host: Host, raw: Word, gpr: Gpr, pc: Word)
    ensures IsArithmetic(Func(raw)) ==>
      && DisassembleRType(raw).Some? && DisassembleRType(raw).value.Alu?
      && Attempt(host, DisassembleRType(raw), gpr, pc)
         == (match AluValue(host, DisassembleRType(raw).value.alu, gpr[Rs(raw)], gpr[Rt(raw)])
             case None => Fail
             case Some(v) => Set(Rd(raw), v))
    ensures IsShift(Func(raw)) ==>
      && DisassembleRType(raw).Some? && DisassembleRType(raw).value.Shift?
      && var i := DisassembleRType(raw).value;
         Attempt(host, Some(i), gpr, pc)
         == Set(Rd(raw), ShiftValue(host, i.shift, gpr[Rt(raw)], match i.amount
                                                                 case Fixed(n) => n
                                                                 case ByReg(_) => gpr[Rs(raw)] % 32))
  {
    hide Op, Rs, Rt, Rd, Shamt, Func, Imm16;
    hide AluValue, ShiftValue;
  }

  // ---- I-type ----

  /** Every case either branches to the 16-bit target or leaves the program counter alone. */
  method BranchIf(taken: bool, target: Word, kind: BranchKind, rf: RegisterFile)
    requires rf.Valid()
    modifies rf, rf.regs
    ensures rf.Valid()
    ensures rf.State() == ApplyRegs(BranchEffect(taken, target, kind, old(rf.pc)), 0, old(rf.State()))
  {
    if taken {
      if kind == Delayed {
        rf.DelayedBranch(target);
      } else {
        if kind == CompactLink {
          var pc := rf.GetPc();
          rf.SetUnsigned(RA, pc);
        }
        rf.SetPc(target);
      }
    }
  }

  lemma WrapTarget(pc: Word, x: int)
    ensures Wrap(pc + Wrap(Wrap(x) * 4)) == Wrap(pc + 4 * x)
  {
    var k := x / TWO32;
    WrapCongruent(4 * x, Wrap(x) * 4, 4 * k);
    WrapCongruent(pc + 4 * x, pc + Wrap(4 * x), 4 * x / TWO32);
  }

  lemma TargetMeaning(pc: Word, field: Word, n: nat)
    requires 0 < n < 32 && field < Pow2(n)
    ensures Wrap(pc + Wrap(BitTricks.SignExtend(field, n) * 4)) == Wrap(pc + 4 * SignedField(field, n))
  {
    hide BitTricks.SignExtend, SignedField, Pow2, Wrap;
    SignExtendMeaning(field, n);
    WrapTarget(pc, SignedField(field, n));
  }

  predicate IsBranch(op: int) {
    4 <= op <= 8 || 22 <= op <= 24
  }

  predicate IsImmediate(op: int) {
    9 <= op <= 15
  }

  /** BEQ, BNE and the POP opcodes: whether the branch the fields select is taken, and its kind. */
  method Decide(raw: Word, rs: Word, rt: Word, ghost host: Host, ghost gpr: Gpr, ghost pc: Word)
    returns (taken: bool, kind: BranchKind)
    requires rs == gpr[Rs(raw)] && rt == gpr[Rt(raw)] && gpr[0] == 0
    requires IsBranch(Op(raw))
    ensures Attempt(host, DisassembleIType(raw), gpr, pc)
         == BranchEffect(taken, Wrap(pc + 4 * Offset16(raw)), kind, pc)
  {
    hide Op, Rs, Rt, Rd, Shamt, Func, Imm16;
    hide CarryDiffersFromSign, OverflowFlag, Offset16, Wrap, AluValue, ImmValue, ShiftValue, SignedField;
    OverflowMeaning(rs, rt);
    var s, t := Rs(raw), Rt(raw);
    taken, kind := false, Compact;
    match Op(raw)
    case 4 => taken, kind := rt == rs, Delayed;
    case 5 => taken, kind := rt != rs, Delayed;
    case 6 =>
      if t == 0 { taken, kind := Signed(rs) <= 0, Delayed; }
      else if s == 0 && t != 0 { taken, kind := Signed(rt) <= 0, CompactLink; }
      else if s == t && t != 0 { taken, kind := Signed(rt) >= 0, CompactLink; }
      else if s != t && s != 0 && t != 0 { taken := rs >= rt; }
    case 7 =>
      if t == 0 { taken, kind := Signed(rs) > 0, Delayed; }
      else if s == 0 && t != 0 { taken, kind := Signed(rt) > 0, CompactLink; }
      else if s == t && t != 0 { taken, kind := Signed(rt) < 0, CompactLink; }
      else if s != t && s != 0 && t != 0 { taken := rs < rt; }
    case 8 =>
      if s == 0 && t != 0 && s < t { taken, kind := rt == 0, CompactLink; }
      else if s != 0 && t != 0 && s < t { taken := rt == rs; }
      else if s >= t { taken := CarryDiffersFromSign(rs, rt); }
    case 24 =>
      if s == 0 && t != 0 && s < t { taken, kind := rt != 0, CompactLink; }
      else if s != 0 && t != 0 && s < t { taken := rt != rs; }
      else if s >= t { taken := !CarryDiffersFromSign(rs, rt); }
    case 22 =>
      if s == 0 && t != 0 { taken := Signed(rt) <= 0; }
      else if s != 0 && t != 0 && t == s { taken := Signed(rt) >= 0; }
      else if s != 0 && t != 0 && t != s { taken := Signed(rs) >= Signed(rt); }
    case 23 =>
      if s == 0 && t != 0 { taken := Signed(rt) > 0; }
      else if s != 0 && t != 0 && t == s { taken := Signed(rt) < 0; }
      else if s != 0 && t != 0 && t != s { taken := Signed(rs) < Signed(rt); }
  }

  lemma ImmediateEffect(host: Host, raw: Word, gpr: Gpr, pc: Word)
    requires IsImmediate(Op(raw))
    ensures DisassembleIType(raw).Some? && DisassembleIType(raw).value.AluImm?
    ensures Attempt(host, DisassembleIType(raw), gpr, pc)
         == Set(Rt(raw), ImmValue(DisassembleIType(raw).value.imm, gpr[Rs(raw)], Imm16(raw)))
  {
    hide Op, Rs, Rt, Rd, Shamt, Func, Imm16;
    hide ImmValue, SignedField;
  }

  /** ADDIU, AUI, SLTI, SLTIU, ANDI, ORI, XORI. */
  method ImmediateValue(raw: Word, rs: Word, ghost host: Host, ghost gpr: Gpr, ghost pc: Word)
    returns (value: Word)
    requires IsImmediate(Op(raw)) && rs == gpr[Rs(raw)]
    ensures Attempt(host, DisassembleIType(raw), gpr, pc) == Set(Rt(raw), value)
  {
    hide Op, Rs, Rt, Rd, Shamt, Func, Imm16;
    hide And, Or, Xor, Shl, BitTricks.SignExtend, Compute, Wrap, DisassembleLoadStore;
    var imm := Imm16(raw);
    ImmediateEffect(host, raw, gpr, pc);
    Pow2Table();
    SumTarget(rs, SignedField(imm, 16));
    SignedOfWrap(SignedField(imm, 16));
    SignExtendMeaning(imm, 16);
    SignExtendShifted(imm);
    match Op(raw)
    case 9 => return Wrap(rs + BitTricks.SignExtend(imm, 16));
    case 15 => return Wrap(rs + BitTricks.SignExtend(Shl(imm, 16), 16));
    case 10 => return if Signed(rs) < Signed(BitTricks.SignExtend(imm, 16)) then 1 else 0;
    case 11 => return if rs < BitTricks.SignExtend(imm, 16) then 1 else 0;
    case 12 => return And(rs, imm);
    case 13 => return Or(rs, imm);
    case 14 => return Xor(rs, imm);
  }

  lemma IndexedEffect(host: Host, raw: Word, gpr: Gpr, pc: Word)
    requires (Op(raw) == 54 || Op(raw) == 62) && gpr[0] == 0
    ensures Attempt(host, DisassembleIType(raw), gpr, pc) == (
              var link := Op(raw) == 62;
              if Rs(raw) == 0 then
                Done(Link(link, pc), Now(Wrap((if link && Rt(raw) == RA then pc else gpr[Rt(raw)]) + Offset16(raw))))
              else
                BranchEffect((gpr[Rs(raw)] != 0) == link, Wrap(pc + 4 * SignedField(Imm21(raw), 21)), Compact, pc))
  {
    hide Op, Rs, Rt, Rd, Shamt, Func, Imm16;
    hide Wrap, SignedField, AluValue, ImmValue, ShiftValue;
  }

  /** POP66 and POP76. The base register is read after $31 has been linked. */
  method IndexedCase(host: Host, raw: Word, rf: RegisterFile) returns (ok: bool)
    requires rf.Valid()
    requires Op(raw) == 54 || Op(raw) == 62
    modifies rf, rf.regs
    ensures rf.Valid()
    ensures Performed(Attempt(host, DisassembleIType(raw), old(rf.State()).gpr, old(rf.pc)), raw,
                      old(rf.State()), rf.State(), ok)
  {
    hide Op, Rs, Rt, Rd, Shamt, Func, Imm16;
    hide BitTricks.SignExtend, Pow2, SignedField, Wrap, DisassembleIType, Compute;
    Pow2Table();
    SignExtendMeaning(Imm16(raw), 16);
    var pc := rf.GetPc();
    IndexedEffect(host, raw, rf.State().gpr, pc);
    TargetMeaning(pc, Imm21(raw), 21);
    if Rs(raw) == 0 {
      if Op(raw) == 62 { rf.SetUnsigned(RA, pc); }
      var base := rf.Get(Rt(raw));
      SumTarget(base, Offset16(raw));
      rf.SetPc(Wrap(base + BitTricks.SignExtend(Imm16(raw), 16)));
    } else {
      var rs := rf.Get(Rs(raw));
      var longTarget := Wrap(pc + Wrap(BitTricks.SignExtend(Imm21(raw), 21) * 4));
      BranchIf(if Op(raw) == 54 then rs == 0 else rs != 0, longTarget, Compact, rf);
    }
    return true;
  }

  lemma SumTarget(base: Word, x: int)
    ensures Wrap(base + Wrap(x)) == Wrap(base + x)
  {
    WrapCongruent(base + x, base + Wrap(x), x / TWO32);
  }

  predicate IsMemoryAccess(op: int) {
    op == 32 || op == 33 || 35 <= op <= 37 || op == 40 || op == 41 || op == 43
  }

  /** handle_itype_instr without a memory: the load and store opcodes fall to its default. */
  method HandleIType(host: Host, raw: Word, rf: RegisterFile) returns (ok: bool)
    requires rf.Valid()
    modifies rf, rf.regs
    ensures rf.Valid()
    ensures Performed(Attempt(host, if IsMemoryAccess(Op(raw)) then None else DisassembleIType(raw),
                              old(rf.State()).gpr, old(rf.pc)),
                      raw, old(rf.State()), rf.State(), ok)
  {
    hide Op, Rs, Rt, Rd, Shamt, Func, Imm16;
    hide SignedField, Pow2, Wrap, BitTricks.SignExtend, DisassembleIType, Compute;
    var rs := rf.Get(Rs(raw));
    var rt := rf.Get(Rt(raw));
    var pc := rf.GetPc();
    Pow2Table();
    TargetMeaning(pc, Imm16(raw), 16);
    var branchTarget := Wrap(pc + Wrap(BitTricks.SignExtend(Imm16(raw), 16) * 4));
    if IsImmediate(Op(raw)) {
      var value := ImmediateValue(raw, rs, host, rf.State().gpr, pc);
      rf.SetUnsigned(Rt(raw), value);
      return true;
    } else if IsBranch(Op(raw)) {
      var taken, kind := Decide(raw, rs, rt, host, rf.State().gpr, pc);
      BranchIf(taken, branchTarget, kind, rf);
      return true;
    } else if Op(raw) == 54 || Op(raw) == 62 {
      ok := IndexedCase(host, raw, rf);
    } else {
      if !IsMemoryAccess(Op(raw)) { OtherOpcodes(raw); }
      return false;
    }
  }

  lemma OtherOpcodes(raw: Word)
    requires !IsImmediate(Op(raw)) && !IsBranch(Op(raw)) && !IsMemoryAccess(Op(raw)) && Op(raw) != 54 && Op(raw) != 62
    ensures DisassembleIType(raw).None?
  {
    hide Op, Rs, Rt, Rd, Shamt, Func, Imm16;
  }

  // ---- Loads and stores ----

  lemma AddressMeaning(base: Word, raw: Word)
    ensures Wrap(base + BitTricks.SignExtend(Imm16(raw), 16)) == Wrap(base + Offset16(raw))
  {
    hide BitTricks.SignExtend, SignedField, Wrap, Pow2;
    Pow2Table();
    SignExtendMeaning(Imm16(raw), 16);
    SumTarget(base, Offset16(raw));
  }

  /** The value is converted from an intN_t or a uintN_t to a register. */
  method LoadVal(raw: Word, rf: RegisterFile, mem: Memory, rs: Word, width: nat, signed: bool) returns (ok: bool)
    requires rf.Valid() && IsWidth(width)
    modifies rf.regs
    ensures rf.Valid() && mem.data[..] == old(mem.data[..])
    ensures match Isa.Read(mem.AsBus(), old(mem.data[..]), Wrap(rs + Offset16(raw)), width)
            case Err(_) => !ok && rf.State() == old(rf.State())
            case Ok(v) => ok && rf.State() == old(rf.State()).(gpr :=
                            WriteGpr(old(rf.State()).gpr, To(Rt(raw), LoadedValue(v, width, signed))))
  {
    hide BitTricks.SignExtend, Offset16, Wrap, Isa.Read, LoadedValue;
    AddressMeaning(rs, raw);
    var r := mem.Read(Wrap(rs + BitTricks.SignExtend(Imm16(raw), 16)), width);
    if r.Err? { return false; }
    rf.SetUnsigned(Rt(raw), LoadedValue(r.value, width, signed));
    return true;
  }

  /** rt is cut to the width of the access. */
  method StoreVal(raw: Word, mem: Memory, rs: Word, rt: Word, width: nat) returns (ok: bool)
    requires IsWidth(width)
    modifies mem.data
    ensures match Locate(mem.AsBus(), mem.data.Length, Wrap(rs + Offset16(raw)), width)
            case Err(_) => !ok && mem.data[..] == old(mem.data[..])
            case Ok(i) => ok && mem.data[..] == Patch(old(mem.data[..]), i, Bytes(rt, width))
  {
    hide BitTricks.SignExtend, Offset16, Wrap, Locate, Bytes;
    AddressMeaning(rs, raw);
    var r := mem.Store(Wrap(rs + BitTricks.SignExtend(Imm16(raw), 16)), width, rt);
    return r.Ok?;
  }

  function LoadShape(op: int): (nat, bool)
    requires 32 <= op <= 37 && op != 34
  {
    match op
    case 32 => (1, true)
    case 33 => (2, true)
    case 35 => (4, true)
    case 36 => (1, false)
    case 37 => (2, false)
  }

  function StoreWidth(op: int): nat
    requires op == 40 || op == 41 || op == 43
  {
    match op
    case 40 => 1
    case 41 => 2
    case 43 => 4
  }

  lemma MemoryEffect(env: Env, raw: Word, gpr: Gpr, pc: Word, mem: seq<Byte>)
    requires IsMemoryAccess(Op(raw))
    ensures AttemptMem(env, DisassembleIType(raw), gpr, pc, mem) == (
              var address := Wrap(gpr[Rs(raw)] + Offset16(raw));
              if Op(raw) < 40 then
                var (width, signed) := LoadShape(Op(raw));
                match Isa.Read(env.bus, mem, address, width)
                case Err(_) => Fail
                case Ok(v) => Set(Rt(raw), LoadedValue(v, width, signed))
              else
                match Locate(env.bus, |mem|, address, StoreWidth(Op(raw)))
                case Err(_) => Fail
                case Ok(index) => Stored(index, Bytes(gpr[Rt(raw)], StoreWidth(Op(raw)))))
  {
    hide Op, Rs, Rt, Rd, Shamt, Func, Imm16;
    hide Offset16, Wrap, Isa.Read, Locate, Bytes, LoadedValue;
  }

  lemma NoMemoryEffect(env: Env, raw: Word, gpr: Gpr, pc: Word, mem: seq<Byte>)
    requires !IsMemoryAccess(Op(raw))
    ensures AttemptMem(env, DisassembleIType(raw), gpr, pc, mem)
         == Attempt(env.host, DisassembleIType(raw), gpr, pc)
  {
    hide Op, Rs, Rt, Rd, Shamt, Func, Imm16;
    hide Compute, Offset16, SignedField;
  }

  ghost predicate PerformedMem(e: Effect, raw: Word, before: Machine, after: Machine, ok: bool)
    requires e.Fits(before.mem)
  {
    Performed(e, raw, before.regs, after.regs, ok) && after.mem == ApplyMem(e, before.mem)
  }

  ghost function MachineOf(rf: RegisterFile, mem: Memory): Machine
    requires rf.Valid()
    reads rf, rf.regs, mem.data
  {
    Machine(rf.State(), mem.data[..])
  }

  method HandleITypeWithMemory(host: Host, raw: Word, rf: RegisterFile, mem: Memory) returns (ok: bool)
    requires rf.Valid()
    modifies rf, rf.regs, mem.data
    ensures rf.Valid()
    ensures PerformedMem(AttemptMem(Env(mem.AsBus(), host), DisassembleIType(raw), old(rf.State()).gpr,
                                    old(rf.pc), old(mem.data[..])),
                         raw, old(MachineOf(rf, mem)), MachineOf(rf, mem), ok)
  {
    hide Op, Rs, Rt, Rd, Shamt, Func, Imm16;
    hide AttemptMem, Attempt, DisassembleIType, Offset16, Wrap, Isa.Read, Locate, Bytes, LoadedValue;
    var rs := rf.Get(Rs(raw));
    var rt := rf.Get(Rt(raw));
    if IsMemoryAccess(Op(raw)) {
      MemoryEffect(Env(mem.AsBus(), host), raw, rf.State().gpr, rf.pc, mem.data[..]);
      if Op(raw) < 40 {
        var (width, signed) := LoadShape(Op(raw));
        ok := LoadVal(raw, rf, mem, rs, width, signed);
      } else {
        ok := StoreVal(raw, mem, rs, rt, StoreWidth(Op(raw)));
      }
    } else {
      NoMemoryEffect(Env(mem.AsBus(), host), raw, rf.State().gpr, rf.pc, mem.data[..]);
      ok := HandleIType(host, raw, rf);
    }
  }

  // ---- J-type ----

  lemma JTypeEffect(host: Host, raw: Word, gpr: Gpr, pc: Word)
    ensures Attempt(host, DisassembleJType(raw), gpr, pc) == (
              var link := Op(raw) == 3 || Op(raw) == 58;
              match Op(raw)
              case 2 | 3 => Done(Link(link, pc), After(Wrap(pc / 0x1000_0000 * 0x1000_0000 + 4 * Imm26(raw))))
              case 50 | 58 => Done(Link(link, pc), Now(Wrap(pc + 4 * SignedField(Imm26(raw), 26))))
              case _ => Fail)
  {
    hide Op, Rs, Rt, Rd, Shamt, Func, Imm16;
    hide Wrap, SignedField, AluValue, ImmValue, ShiftValue;
  }

  method HandleJType(host: Host, raw: Word, rf: RegisterFile) returns (ok: bool)
    requires rf.Valid()
    modifies rf, rf.regs
    ensures rf.Valid()
    ensures Performed(Attempt(host, DisassembleJType(raw), old(rf.State()).gpr, old(rf.pc)), raw,
                      old(rf.State()), rf.State(), ok)
  {
    hide Op, Rs, Rt, Rd, Shamt, Func, Imm16;
    hide DisassembleJType, Attempt, Wrap, SignedField, RegionTarget, BitTricks.SignExtend, Pow2;
    Pow2Table();
    var address := Imm26(raw);
    var pc := rf.GetPc();
    JTypeEffect(host, raw, rf.State().gpr, pc);
    RegionMeaning(pc, address);
    TargetMeaning(pc, address, 26);
    var op := Op(raw);
    if op == 2 || op == 3 {
      if op == 3 { rf.SetUnsigned(RA, pc); }
      rf.DelayedBranch(RegionTarget(pc, address));
    } else if op == 50 || op == 58 {
      if op == 58 { rf.SetUnsigned(RA, pc); }
      rf.SetPc(Wrap(pc + Wrap(BitTricks.SignExtend(address, 26) * 4)));
    } else {
      return false;
    }
    return true;
  }

  // ---- Special3 ----

  /** The value of a BSHFL case; None is the default. */
  method BshflValue(raw: Word, rs: Word, rt: Word, ghost host: Host, ghost gpr: Gpr, ghost pc: Word)
    returns (value: Option<Word>)
    requires rs == gpr[Rs(raw)] && rt == gpr[Rt(raw)]
    ensures Attempt(host, DisassembleBshfl(raw), gpr, pc)
         == match value case None => Fail case Some(v) => Set(Rd(raw), v)
  {
    hide Op, Rs, Rt, Rd, Shamt, Func, Imm16;
    hide AluValue, ImmValue, ShiftValue, ReverseBytes, SwapHalfwordBytes, SwapWithinHalfwords, AlignShift, AlignWords;
    hide BitTricks.SignExtend, SignedField, Wrap, Keep, Pow2, And;
    match Shamt(raw)
    case 0 =>
      var swapped := SwapBits(rt);
      return Some(swapped);
    case 2 =>
      WsbhMeaning(rt);
      return Some(SwapWithinHalfwords(rt));
    case 8 | 9 | 10 | 11 =>
      LowTwo(Shamt(raw));
      var bp := And(Shamt(raw), 3);
      AlignMeaning(rt, rs, bp);
      return Some(AlignWords(rt, rs, bp));
    case 16 =>
      LowMaskOf(rt);
      SignExtendMeaning(And(rt, 0xFF), 8);
      return Some(BitTricks.SignExtend(And(rt, 0xFF), 8));
    case 24 =>
      LowMaskOf(rt);
      SignExtendMeaning(And(rt, 0xFFFF), 16);
      return Some(BitTricks.SignExtend(And(rt, 0xFFFF), 16));
    case _ => return None;
  }

  lemma LowTwo(x: Word)
    ensures And(x, 3) == x % 4
  {
    Pow2Table();
    AndField(x, 0, 2, 1, 4, 3);
  }

  lemma LowMaskOf(x: Word)
    ensures And(x, 0xFF) == Keep(x, 8) && And(x, 0xFFFF) == Keep(x, 16)
  {
    Pow2Table();
    AndLowMask(x, 8, 0xFF);
    AndLowMask(x, 16, 0xFFFF);
  }

  method HandleSpecial3Bshfl(host: Host, raw: Word, rf: RegisterFile) returns (ok: bool)
    requires rf.Valid()
    modifies rf, rf.regs
    ensures rf.Valid()
    ensures Performed(Attempt(host, DisassembleBshfl(raw), old(rf.State()).gpr, old(rf.pc)), raw,
                      old(rf.State()), rf.State(), ok)
  {
    hide Op, Rs, Rt, Rd, Shamt, Func, Imm16;
    hide DisassembleBshfl, Attempt;
    var rt := rf.Get(Rt(raw));
    var rs := rf.Get(Rs(raw));
    var value := BshflValue(raw, rs, rt, host, rf.State().gpr, rf.pc);
    if value.None? { return false; }
    rf.SetUnsigned(Rd(raw), value.value);
    return true;
  }

  lemma FieldEffects(host: Host, raw: Word, gpr: Gpr, pc: Word)
    ensures Attempt(host, DisassembleExt(raw), gpr, pc) == (
              if Shamt(raw) + Rd(raw) <= 31 then
                Set(Rt(raw), ExtractField(gpr[Rs(raw)], Shamt(raw), Rd(raw) + 1))
              else Fail)
    ensures Attempt(host, DisassembleIns(raw), gpr, pc) == (
              if Shamt(raw) <= Rd(raw) then
                Set(Rt(raw), InsertField(gpr[Rt(raw)], gpr[Rs(raw)], Shamt(raw), Rd(raw) - Shamt(raw) + 1))
              else Fail)
  {
    hide Op, Rs, Rt, Rd, Shamt, Func, Imm16;
    hide ExtractField, InsertField, AluValue, ImmValue, ShiftValue;
  }

  method HandleSpecial3Ext(host: Host, raw: Word, rf: RegisterFile) returns (ok: bool)
    requires rf.Valid()
    modifies rf, rf.regs
    ensures rf.Valid()
    ensures Performed(Attempt(host, DisassembleExt(raw), old(rf.State()).gpr, old(rf.pc)), raw,
                      old(rf.State()), rf.State(), ok)
  {
    hide Op, Rs, Rt, Rd, Shamt, Func, Imm16;
    hide DisassembleExt, Attempt, ExtractField, ExtractBits;
    FieldEffects(host, raw, rf.State().gpr, rf.pc);
    var size := Rd(raw) + 1;
    var lsb := Shamt(raw);
    if lsb >= 32 || size == 0 || size > 32 || lsb + size > 32 { return false; }
    var rs := rf.Get(Rs(raw));
    ExtractMeaning(rs, lsb, size);
    rf.SetUnsigned(Rt(raw), ExtractBits(rs, lsb, size));
    return true;
  }

  lemma InsertWidth(msb: Reg, lsb: Reg)
    ensures var size := Wrap(msb - lsb + 1);
            if lsb <= msb then size == msb - lsb + 1 && lsb + size <= 32 else size == 0 || size > 32
  {}

  /** The field width is a uint32_t: with msb < lsb it is 0 or wraps to a number above 32. */
  method HandleSpecial3Ins(host: Host, raw: Word, rf: RegisterFile) returns (ok: bool)
    requires rf.Valid()
    modifies rf, rf.regs
    ensures rf.Valid()
    ensures Performed(Attempt(host, DisassembleIns(raw), old(rf.State()).gpr, old(rf.pc)), raw,
                      old(rf.State()), rf.State(), ok)
  {
    hide Op, Rs, Rt, Rd, Shamt, Func, Imm16;
    hide DisassembleIns, Attempt, InsertField, InsertBits, Wrap;
    InsertWidth(Rd(raw), Shamt(raw));
    FieldEffects(host, raw, rf.State().gpr, rf.pc);
    var rt := rf.Get(Rt(raw));
    var msb: int := Rd(raw);
    var lsb: int := Shamt(raw);
    var size := Wrap(msb - lsb + 1);
    if lsb >= 32 || size == 0 || size > 32 || lsb + size > 32 { return false; }
    var rs := rf.Get(Rs(raw));
    InsertMeaning(rt, rs, lsb, size);
    rf.SetUnsigned(Rt(raw), InsertBits(rt, rs, lsb, size));
    return true;
  }

  // ---- Regimm and PC-relative ----

  lemma RegimmEffect(host: Host, raw: Word, gpr: Gpr, pc: Word)
    requires gpr[0] == 0
    ensures Attempt(host, DisassembleRegimm(raw), gpr, pc) == (
              var target := Wrap(pc + 4 * Offset16(raw));
              match Rt(raw)
              case 1 => BranchEffect(Signed(gpr[Rs(raw)]) >= 0, target, Delayed, pc)
              case 0 => BranchEffect(Signed(gpr[Rs(raw)]) < 0, target, Delayed, pc)
              case _ => Fail)
  {
    hide Op, Rs, Rt, Rd, Shamt, Func, Imm16;
    hide Wrap, SignedField, AluValue, ImmValue, ShiftValue;
  }

  method HandleRegimmIType(host: Host, raw: Word, rf: RegisterFile) returns (ok: bool)
    requires rf.Valid()
    modifies rf, rf.regs
    ensures rf.Valid()
    ensures Performed(Attempt(host, DisassembleRegimm(raw), old(rf.State()).gpr, old(rf.pc)), raw,
                      old(rf.State()), rf.State(), ok)
  {
    hide Op, Rs, Rt, Rd, Shamt, Func, Imm16;
    hide DisassembleRegimm, Attempt, Wrap, SignedField, BitTricks.SignExtend, Pow2;
    Pow2Table();
    var rs := rf.Get(Rs(raw));
    var pc := rf.GetPc();
    RegimmEffect(host, raw, rf.State().gpr, pc);
    TargetMeaning(pc, Imm16(raw), 16);
    var target := Wrap(pc + Wrap(BitTricks.SignExtend(Imm16(raw), 16) * 4));
    if Rt(raw) == 1 {
      if Signed(rs) >= 0 { rf.DelayedBranch(target); }
    } else if Rt(raw) == 0 {
      if Signed(rs) < 0 { rf.DelayedBranch(target); }
    } else {
      return false;
    }
    return true;
  }

  lemma PcRel1Effect(env: Env, raw: Word, gpr: Gpr, pc: Word, mem: seq<Byte>)
    ensures AttemptMem(env, DisassemblePcRel1(raw), gpr, pc, mem) == (
              var address := Wrap(pc + 4 * Imm19(raw));
              match PcFunc1(raw)
              case 0 => Set(Rs(raw), address)
              case 1 =>
                (match Isa.Read(env.bus, mem, address, 4)
                 case Err(_) => Fail
                 case Ok(v) => Set(Rs(raw), v))
              case _ => Fail)
  {
    hide Op, Rs, Rt, Rd, Shamt, Func, Imm16;
    hide Isa.Read, Wrap;
  }

  method HandlePcRelType1(host: Host, raw: Word, rf: RegisterFile, mem: Memory) returns (ok: bool)
    requires rf.Valid()
    modifies rf.regs
    ensures rf.Valid()
    ensures PerformedMem(AttemptMem(Env(mem.AsBus(), host), DisassemblePcRel1(raw), old(rf.State()).gpr,
                                    old(rf.pc), old(mem.data[..])),
                         raw, old(MachineOf(rf, mem)), MachineOf(rf, mem), ok)
  {
    hide Op, Rs, Rt, Rd, Shamt, Func, Imm16;
    hide DisassemblePcRel1, AttemptMem, Isa.Read, Wrap, PcRelAddress;
    var pc := rf.GetPc();
    PcRel1Effect(Env(mem.AsBus(), host), raw, rf.State().gpr, pc, mem.data[..]);
    PcRelMeaning(pc, Imm19(raw));
    var address := PcRelAddress(pc, Imm19(raw));
    if PcFunc1(raw) == 0 {
      rf.SetUnsigned(Rs(raw), address);
    } else if PcFunc1(raw) == 1 {
      var r := mem.Read(address, 4);
      if r.Err? { return false; }
      rf.SetUnsigned(Rs(raw), r.value);
    } else {
      return false;
    }
    return true;
  }

  lemma PcRel2Effect(host: Host, raw: Word, gpr: Gpr, pc: Word)
    ensures Attempt(host, DisassemblePcRel2(raw), gpr, pc) == (
              var address := Wrap(pc + 0x1_0000 * Imm16(raw));
              match Rt(raw)
              case 30 => Set(Rs(raw), address)
              case 31 => Set(Rs(raw), address / 0x1_0000 * 0x1_0000)
              case _ => Fail)
  {
    hide Op, Rs, Rt, Rd, Shamt, Func, Imm16;
    hide Wrap, AluValue, ImmValue, ShiftValue;
  }

  method HandlePcRelType2(host: Host, raw: Word, rf: RegisterFile) returns (ok: bool)
    requires rf.Valid()
    modifies rf, rf.regs
    ensures rf.Valid()
    ensures Performed(Attempt(host, DisassemblePcRel2(raw), old(rf.State()).gpr, old(rf.pc)), raw,
                      old(rf.State()), rf.State(), ok)
  {
    hide Op, Rs, Rt, Rd, Shamt, Func, Imm16;
    hide DisassemblePcRel2, Attempt, And, Shl, Wrap, Pow2;
    var pc := rf.GetPc();
    PcRel2Effect(host, raw, rf.State().gpr, pc);
    Pow2Table();
    ShlBy(Imm16(raw), 16, 0x1_0000);
    SumTarget(pc, Imm16(raw) * 0x1_0000);
    var address := Wrap(pc + Shl(Imm16(raw), 16));
    ClearLowHalf(address);
    if Rt(raw) == 31 {
      rf.SetUnsigned(Rs(raw), And(address, 0xFFFF_0000));
    } else if Rt(raw) == 30 {
      rf.SetUnsigned(Rs(raw), address);
    } else {
      return false;
    }
    return true;
  }

  // ---- step ----

  /** The classifier sends every word to the handler that implements it. */
  lemma ClassifierAgrees(raw: Word)
    ensures Disassemble(raw) == match GetType(raw)
                                case Some(RType) => DisassembleRType(raw)
                                case Some(IType) => DisassembleIType(raw)
                                case Some(LongImmIType) => DisassembleIType(raw)
                                case Some(JType) => DisassembleJType(raw)
                                case Some(Special3Bshfl) => DisassembleBshfl(raw)
                                case Some(Special3Ext) => DisassembleExt(raw)
                                case Some(Special3Ins) => DisassembleIns(raw)
                                case Some(RegimmIType) => DisassembleRegimm(raw)
                                case Some(PcRelType1) => DisassemblePcRel1(raw)
                                case Some(PcRelType2) => DisassemblePcRel2(raw)
                                case _ => None
  {
    hide Op, Rs, Rt, Rd, Shamt, Func, Imm16;
    hide DisassembleRType, DisassembleJType, DisassembleBshfl, DisassembleExt, DisassembleIns;
    hide DisassembleRegimm, DisassemblePcRel1, DisassemblePcRel2;
    var op := Op(raw);
    if (op != 31 && GetType(raw).None?) || op == 17 {
      UnknownOpcode(raw);
    }
  }

  lemma UnknownOpcode(raw: Word)
    requires Op(raw) == 17 || (Op(raw) != 31 && GetType(raw).None?)
    ensures DisassembleIType(raw).None?
  {
    hide Op, Rs, Rt, Rd, Shamt, Func, Imm16;
  }

  /** Register-only families as seen by a step that also has a memory. */
  lemma RegisterOnly(env: Env, i: Option<Instr>, gpr: Gpr, pc: Word, mem: seq<Byte>)
    requires NeedsNoMemory(i) && (i.Some? ==> WellFormed(i.value))
    ensures AttemptMem(env, i, gpr, pc, mem) == Attempt(env.host, i, gpr, pc)
    ensures !AttemptMem(env, i, gpr, pc, mem).Stored?
  {
    hide Compute;
  }

  predicate NeedsNoMemory(i: Option<Instr>) {
    i.Some? ==> !i.value.Load? && !i.value.Store? && !i.value.LoadPc?
  }

  lemma RegisterOnlyFamilies(raw: Word)
    ensures NeedsNoMemory(DisassembleRType(raw)) && NeedsNoMemory(DisassembleJType(raw))
    ensures NeedsNoMemory(DisassembleBshfl(raw)) && NeedsNoMemory(DisassembleExt(raw))
    ensures NeedsNoMemory(DisassembleIns(raw)) && NeedsNoMemory(DisassembleRegimm(raw))
    ensures NeedsNoMemory(DisassemblePcRel2(raw))
  {
    hide Op, Rs, Rt, Rd, Shamt, Func, Imm16, Imm26, SignedField;
  }

  method Dispatch(host: Host, raw: Word, rf: RegisterFile, mem: Memory) returns (ok: bool)
    requires rf.Valid()
    modifies rf, rf.regs, mem.data
    ensures rf.Valid()
    ensures PerformedMem(EffectOf(Env(mem.AsBus(), host), raw, old(rf.State()).gpr, old(rf.pc), old(mem.data[..])),
                         raw, old(MachineOf(rf, mem)), MachineOf(rf, mem), ok)
  {
    hide Op, Rs, Rt, Rd, Shamt, Func, Imm16;
    hide Disassemble, GetType, AttemptMem, Compute, DisassembleRType, DisassembleIType, DisassembleJType;
    hide DisassembleBshfl, DisassembleExt, DisassembleIns, DisassembleRegimm, DisassemblePcRel1, DisassemblePcRel2;
    ClassifierAgrees(raw);
    RegisterOnlyFamilies(raw);
    ghost var i := Disassemble(raw);
    ghost var env, gpr, pc := Env(mem.AsBus(), host), rf.State().gpr, rf.pc;
    if NeedsNoMemory(i) {
      RegisterOnly(env, i, gpr, pc, mem.data[..]);
    }
    var instrType := GetType(raw);
    match instrType
    case Some(RType) => ok := HandleRType(host, raw, rf);
    case Some(IType) => ok := HandleITypeWithMemory(host, raw, rf, mem);
    case Some(LongImmIType) => ok := HandleITypeWithMemory(host, raw, rf, mem);
    case Some(JType) => ok := HandleJType(host, raw, rf);
    case Some(Special3Bshfl) => ok := HandleSpecial3Bshfl(host, raw, rf);
    case Some(Special3Ext) => ok := HandleSpecial3Ext(host, raw, rf);
    case Some(Special3Ins) => ok := HandleSpecial3Ins(host, raw, rf);
    case Some(RegimmIType) => ok := HandleRegimmIType(host, raw, rf);
    case Some(PcRelType1) => ok := HandlePcRelType1(host, raw, rf, mem);
    case Some(PcRelType2) => ok := HandlePcRelType2(host, raw, rf);
    case _ => ok := false;
  }

  /** One step of the emulator is one step of the reference machine, for every memory, register file and host. */
  method Step(host: Host, rf: RegisterFile, mem: Memory) returns (ok: bool)
    requires rf.Valid()
    modifies rf, rf.regs, mem.data
    ensures rf.Valid()
    ensures Stepped(MachineOf(rf, mem), ok) == Isa.Step(Env(mem.AsBus(), host), old(MachineOf(rf, mem)))
  {
    hide Isa.Read, EffectOf;
    var pc := rf.GetPc();
    var r := mem.Read(pc, 4);
    if r.Err? { return false; }
    rf.UpdatePc();
    ok := Dispatch(host, r.value, rf, mem);
  }

  /** Calling step n times takes the reference machine's run of length n, failed steps included. */
  method StepTimes(host: Host, rf: RegisterFile, mem: Memory, n: nat)
    requires rf.Valid()
    modifies rf, rf.regs, mem.data
    ensures rf.Valid()
    ensures MachineOf(rf, mem) == Run(Env(mem.AsBus(), host), old(MachineOf(rf, mem)), n)
  {
    hide Isa.Step;
    for i := 0 to n
      invariant rf.Valid()
      invariant MachineOf(rf, mem) == Run(Env(mem.AsBus(), host), old(MachineOf(rf, mem)), i)
    {
      var ok := Step(host, rf, mem);
    }
  }
}

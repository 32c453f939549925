/** From mnemonics back to words: which constructor call builds the word of an instruction. */
module Assembly {
  import opened Words
  import opened Instructions
  import opened Isa
  import opened Runs
  import opened MemoryLaws

  /** A call of one of the constructors of an instruction word. */
  datatype Call =
    | R(func: Bits6, rd: Reg, rs: Reg, rt: Reg, shamt: Bits5)
    | I(opcode: Bits6, rt: Reg, rs: Reg, immediate: Bits16)
    | J(opcode: Bits6, address: Bits26)
    | Special(func: Bits6, extra: Bits5, rd: Bits5, rs: Reg, rt: Reg)
    | Regimm(fn: Bits5, rs: Reg, immediate: Bits16)
    | Pc1(rs: Reg, loads: bool, distance: Bits19)
    | Pc2(rs: Reg, fn: Bits5, immediate: Bits16)

  /** The function field that tells LWPC from ADDIUPC. */
  function LoadsBit(loads: bool): Byte {
    if loads then 1 else 0
  }

  /** The word the constructor leaves in raw. */
  function Built(c: Call): Word {
    match c
    case R(func, rd, rs, rt, shamt) => Encode([func, shamt, rd, rt, rs, 0], RTYPE)
    case I(opcode, rt, rs, immediate) => Encode([immediate, rt, rs, opcode], ITYPE)
    case J(opcode, address) => Encode([address, opcode], JTYPE)
    case Special(func, extra, rd, rs, rt) => Encode([func, extra, rd, rt, rs, 31], SPECIAL3)
    case Regimm(fn, rs, immediate) => Encode([immediate, fn, rs, 1], REGIMM_ITYPE)
    case Pc1(rs, loads, distance) => Encode([distance, LoadsBit(loads), rs, 59], PCREL_TYPE1)
    case Pc2(rs, fn, immediate) => Encode([immediate, fn, rs, 59], PCREL_TYPE2)
  }

  /** Calling it. */
  method Construct(c: Call) returns (instr: Instruction)
    ensures fresh(instr) && instr.raw == Built(c)
  {
    hide Encode;
    if c.R? {
      instr := new Instruction.RType(c.func, c.rd, c.rs, c.rt, c.shamt);
    } else if c.I? {
      instr := new Instruction.IType(c.opcode, c.rt, c.rs, c.immediate);
    } else if c.J? {
      instr := new Instruction.JType(c.opcode, c.address);
    } else if c.Special? {
      instr := new Instruction.Special3(c.func, c.extra, c.rd, c.rs, c.rt);
    } else if c.Regimm? {
      instr := new Instruction.RegimmIType(c.fn, c.rs, c.immediate);
    } else if c.Pc1? {
      instr := new Instruction.PcRelType1(c.rs, LoadsBit(c.loads), c.distance);
    } else {
      instr := new Instruction.PcRelType2(c.rs, c.fn, c.immediate);
    }
  }

  // ---- Offsets as fields ----

  /** The 16-bit field that sign-extends to the offset, if there is one. */
  function Field16(offset: int): Option<Bits16> {
    if 0 <= offset < 0x8000 then Some(offset)
    else if -0x8000 <= offset < 0 then Some(offset + 0x1_0000)
    else None
  }

  function Field21(offset: int): Option<Bits21> {
    if 0 <= offset < 0x10_0000 then Some(offset)
    else if -0x10_0000 <= offset < 0 then Some(offset + 0x20_0000)
    else None
  }

  function Field26(offset: int): Option<Bits26> {
    if 0 <= offset < 0x200_0000 then Some(offset)
    else if -0x200_0000 <= offset < 0 then Some(offset + 0x400_0000)
    else None
  }

  /** A field sign-extends to an offset exactly when it is the offset's field. */
  lemma FieldsSignExtend(offset: int, f: Bits16, g: Bits21, h: Bits26)
    ensures SignedField(f, 16) == offset <==> Field16(offset) == Some(f)
    ensures SignedField(g, 21) == offset <==> Field21(offset) == Some(g)
    ensures SignedField(h, 26) == offset <==> Field26(offset) == Some(h)
  {
    Pow2Table();
  }

  // ---- The call for each kind of instruction ----

  function AluCall(op: AluOp, rd: Reg, rs: Reg, rt: Reg): Call {
    match op
    case Add => R(32, rd, rs, rt, 0)
    case Sub => R(34, rd, rs, rt, 0)
    case Mul => R(24, rd, rs, rt, 2)
    case Muh => R(24, rd, rs, rt, 3)
    case Muhu => R(25, rd, rs, rt, 3)
    case Div => R(26, rd, rs, rt, 2)
    case Mod => R(26, rd, rs, rt, 3)
    case Divu => R(27, rd, rs, rt, 2)
    case Modu => R(27, rd, rs, rt, 3)
    case BitAnd => R(36, rd, rs, rt, 0)
    case BitOr => R(37, rd, rs, rt, 0)
    case BitXor => R(38, rd, rs, rt, 0)
    case BitNor => R(39, rd, rs, rt, 0)
    case Slt => R(42, rd, rs, rt, 0)
    case Sltu => R(43, rd, rs, rt, 0)
    case Seleqz => R(53, rd, rs, rt, 0)
    case Selnez => R(55, rd, rs, rt, 0)
    case Clz => R(16, rd, rs, rt, 1)
    case Clo => R(11, rd, rs, rt, 1)
  }

  function ImmOpcode(op: ImmOp): Bits6 {
    match op
    case Addiu => 9
    case Slti => 10
    case Sltiu => 11
    case Andi => 12
    case Ori => 13
    case Xori => 14
    case Aui => 15
  }

  function ShiftCall(op: ShiftOp, rd: Reg, rt: Reg, amount: Amount): Option<Call> {
    match amount
    case Fixed(n) =>
      if n >= 32 then None
      else (match op
            case Sll => Some(R(0, rd, 0, rt, n))
            case Srl => Some(R(2, rd, 0, rt, n))
            case Rotr => Some(R(2, rd, 1, rt, n))
            case Sra => Some(R(3, rd, 0, rt, n)))
    case ByReg(r) =>
      match op
      case Sll => Some(R(4, rd, r, rt, 0))
      case Srl => Some(R(6, rd, r, rt, 0))
      case Rotr => Some(R(6, rd, r, rt, 1))
      case Sra => Some(R(7, rd, r, rt, 0))
  }

  /** There is no trap on the overflow flag. */
  function TrapCall(cond: Cond, rs: Reg, rt: Reg): Option<Call> {
    match cond
    case GE => Some(R(48, 0, rs, rt, 0))
    case GEU => Some(R(49, 0, rs, rt, 0))
    case LT => Some(R(50, 0, rs, rt, 0))
    case LTU => Some(R(51, 0, rs, rt, 0))
    case EQ => Some(R(52, 0, rs, rt, 0))
    case NE => Some(R(54, 0, rs, rt, 0))
    case _ => None
  }

  /** BEQ and BNE compare any two registers, the other delayed branches compare one with $0. */
  function DelayedCall(cond: Cond, a: Reg, b: Reg, f: Bits16): Option<Call> {
    match cond
    case EQ => Some(I(4, b, a, f))
    case NE => Some(I(5, b, a, f))
    case GE => if a == 0 then Some(I(6, 0, b, f)) else if b == 0 then Some(Regimm(1, a, f)) else None
    case LT => if a == 0 then Some(I(7, 0, b, f)) else if b == 0 then Some(Regimm(0, a, f)) else None
    case _ => None
  }

  /** The six conditional branches that link. */
  function LinkingCall(cond: Cond, a: Reg, b: Reg, f: Bits16): Option<Call> {
    match cond
    case GE =>
      if a == 0 && b != 0 then Some(I(6, b, 0, f)) else if a != 0 && b == 0 then Some(I(6, a, a, f)) else None
    case LT =>
      if a == 0 && b != 0 then Some(I(7, b, 0, f)) else if a != 0 && b == 0 then Some(I(7, a, a, f)) else None
    case EQ => if a == 0 && b != 0 then Some(I(8, b, 0, f)) else None
    case NE => if a == 0 && b != 0 then Some(I(24, b, 0, f)) else None
    case _ => None
  }

  /** The compact branches with a 16-bit offset. */
  function CompactCall(cond: Cond, a: Reg, b: Reg, f: Bits16): Option<Call> {
    match cond
    case GEU => if a != 0 && b != 0 && a != b then Some(I(6, b, a, f)) else None
    case LTU => if a != 0 && b != 0 && a != b then Some(I(7, b, a, f)) else None
    case OVERFLOW => if a >= b then Some(I(8, b, a, f)) else None
    case NO_OVERFLOW => if a >= b then Some(I(24, b, a, f)) else None
    case EQ => if 0 < a < b then Some(I(8, b, a, f)) else None
    case NE => if 0 < a < b then Some(I(24, b, a, f)) else None
    case GE =>
      if b != 0 && a != b then Some(I(22, b, a, f)) else if b == 0 && a != 0 then Some(I(22, a, a, f)) else None
    case LT =>
      if b != 0 && a != b then Some(I(23, b, a, f)) else if b == 0 && a != 0 then Some(I(23, a, a, f)) else None
  }

  function ShortCall(cond: Cond, a: Reg, b: Reg, f: Bits16, kind: BranchKind): Option<Call> {
    match kind
    case Delayed => DelayedCall(cond, a, b, f)
    case Compact => CompactCall(cond, a, b, f)
    case CompactLink => LinkingCall(cond, a, b, f)
  }

  /** BC and BALC have 26 bits of offset, BEQZC and BNEZC 21, all others 16. */
  function BranchCall(cond: Cond, a: Reg, b: Reg, offset: int, kind: BranchKind): Option<Call> {
    if kind != Delayed && cond == EQ && a == b == 0 then
      (match Field26(offset)
       case None => None
       case Some(f) => Some(J(if kind == Compact then 50 else 58, f)))
    else if kind == Compact && (cond == EQ || cond == NE) && a != 0 && b == 0 then
      (match Field21(offset)
       case None => None
       case Some(f) => Some(I(if cond == EQ then 54 else 62, f / 0x1_0000, a, f % 0x1_0000)))
    else
      match Field16(offset)
      case None => None
      case Some(f) => ShortCall(cond, a, b, f, kind)
  }

  function LoadOpcode(width: nat, signed: bool): Option<Bits6> {
    match (width, signed)
    case (1, true) => Some(32)
    case (2, true) => Some(33)
    case (4, true) => Some(35)
    case (1, false) => Some(36)
    case (2, false) => Some(37)
    case _ => None
  }

  function StoreOpcode(width: nat): Option<Bits6> {
    match width
    case 1 => Some(40)
    case 2 => Some(41)
    case 4 => Some(43)
    case _ => None
  }

  function OffsetCall(opcode: Option<Bits6>, rt: Reg, rs: Reg, offset: int): Option<Call> {
    match (opcode, Field16(offset))
    case (Some(op), Some(f)) => Some(I(op, rt, rs, f))
    case _ => None
  }

  /** A distance in words goes into ADDIUPC and LWPC; AUIPC and ALUIPC take multiples of 64K. */
  function PcCall(loads: Option<bool>, fn2: Option<Bits5>, rs: Reg, distance: nat): Option<Call> {
    if loads.Some? && distance % 4 == 0 && distance / 4 < 0x8_0000 then Some(Pc1(rs, loads.value, distance / 4))
    else if fn2.Some? && distance % 0x1_0000 == 0 && distance / 0x1_0000 < 0x1_0000 then
      Some(Pc2(rs, fn2.value, distance / 0x1_0000))
    else None
  }

  function FieldCall(func: Bits6, rt: Reg, rs: Reg, lsb: nat, size: nat): Option<Call> {
    if size == 0 || lsb + size > 32 then None
    else Some(Special(func, lsb, if func == 0 then size - 1 else lsb + size - 1, rs, rt))
  }

  /** The constructor call whose word is the instruction, or None if no word is. */
  function Assemble(i: Instr): Option<Call> {
    match i
    case Nop => Some(I(22, 0, 0, 0))
    case Alu(op, rd, rs, rt) => Some(AluCall(op, rd, rs, rt))
    case AluImm(op, rt, rs, v) => if v < 0x1_0000 then Some(I(ImmOpcode(op), rt, rs, v)) else None
    case Shift(op, rd, rt, amount) => ShiftCall(op, rd, rt, amount)
    case TrapIf(cond, rs, rt) => TrapCall(cond, rs, rt)
    case Branch(cond, a, b, offset, kind) => BranchCall(cond, a, b, offset, kind)
    case JumpReg(rs, link) => Some(if link then R(9, RA, rs, 0, 0) else R(8, 0, rs, 0, 0))
    case JumpRegion(index, link) => if index < 0x400_0000 then Some(J(if link then 3 else 2, index)) else None
    case JumpIndexed(rt, offset, link) => OffsetCall(Some(if link then 62 else 54), rt, 0, offset)
    case Load(width, signed, rt, rs, offset) => OffsetCall(LoadOpcode(width, signed), rt, rs, offset)
    case Store(width, rt, rs, offset) => OffsetCall(StoreOpcode(width), rt, rs, offset)
    case LoadPc(rs, distance) => PcCall(Some(true), None, rs, distance)
    case AddPc(rs, distance) => PcCall(Some(false), Some(30), rs, distance)
    case AlignedAddPc(rs, distance) => PcCall(None, Some(31), rs, distance)
    case BitSwap(rd, rt) => Some(Special(32, 0, rd, 0, rt))
    case Wsbh(rd, rt) => Some(Special(32, 2, rd, 0, rt))
    case Align(rd, rs, rt, bp) => if bp < 4 then Some(Special(32, 8 + bp, rd, rs, rt)) else None
    case SignExtend(rd, rt, width) =>
      if width == 8 then Some(Special(32, 16, rd, 0, rt))
      else if width == 16 then Some(Special(32, 24, rd, 0, rt))
      else None
    case Ext(rt, rs, lsb, size) => FieldCall(0, rt, rs, lsb, size)
    case Ins(rt, rs, lsb, size) => FieldCall(4, rt, rs, lsb, size)
  }

  // ---- What the built words hold ----

  /** The fields of a built word are the arguments of the call. */
  predicate FieldsAre(raw: Word, c: Call) {
    match c
    case R(func, rd, rs, rt, shamt) =>
      Op(raw) == 0 && Func(raw) == func && Rd(raw) == rd && Rs(raw) == rs && Rt(raw) == rt && Shamt(raw) == shamt
    case I(opcode, rt, rs, immediate) =>
      && Op(raw) == opcode && Rt(raw) == rt && Rs(raw) == rs && Imm16(raw) == immediate
      && Imm21(raw) == immediate + 0x1_0000 * rt
    case J(opcode, address) => Op(raw) == opcode && Imm26(raw) == address
    case Special(func, extra, rd, rs, rt) =>
      Op(raw) == 31 && Func(raw) == func && Rd(raw) == rd && Rs(raw) == rs && Rt(raw) == rt && Shamt(raw) == extra
    case Regimm(fn, rs, immediate) => Op(raw) == 1 && Rt(raw) == fn && Rs(raw) == rs && Imm16(raw) == immediate
    case Pc1(rs, loads, distance) =>
      Op(raw) == 59 && PcFunc1(raw) == LoadsBit(loads) && Rs(raw) == rs && Imm19(raw) == distance
    case Pc2(rs, fn, immediate) =>
      Op(raw) == 59 && PcFunc1(raw) == fn / 8 && Rt(raw) == fn && Rs(raw) == rs && Imm16(raw) == immediate
  }

  lemma SixFieldCalls(c: Call)
    requires c.R? || c.Special?
    ensures FieldsAre(Built(c), c)
  {
    hide Encode, Op, Func, Rd, Rs, Rt, Shamt;
    if c.R? {
      SixFields(c.func, c.shamt, c.rd, c.rt, c.rs, 0);
    } else {
      SixFields(c.func, c.extra, c.rd, c.rt, c.rs, 31);
    }
  }

  lemma FourFieldCalls(c: Call)
    requires c.I? || c.Regimm? || c.Pc2?
    ensures FieldsAre(Built(c), c)
  {
    hide Encode, Op, Rs, Rt, Imm16, Imm21, PcFunc1;
    if c.I? {
      FourFields(c.immediate, c.rt, c.rs, c.opcode);
      LongViewSplits(Built(c));
    } else if c.Regimm? {
      FourFields(c.immediate, c.fn, c.rs, 1);
    } else {
      FourFields(c.immediate, c.fn, c.rs, 59);
      PcRelFunctions(Built(c));
    }
  }

  lemma BuiltFields(c: Call)
    ensures FieldsAre(Built(c), c)
  {
    hide Encode, Op, Rs, Imm19, Imm26, PcFunc1;
    match c
    case J(opcode, address) => TwoFields(address, opcode);
    case Pc1(rs, loads, distance) => PcRelFields(distance, LoadsBit(loads), rs);
    case R(_, _, _, _, _) => SixFieldCalls(c);
    case Special(_, _, _, _, _) => SixFieldCalls(c);
    case _ => FourFieldCalls(c);
  }

  // ---- Round trips ----

  lemma BranchesAssemble(i: Instr)
    requires i.Branch? && Assemble(i).Some?
    ensures Disassemble(Built(Assemble(i).value)) == Some(i)
  {
    hide DisassembleRType, DisassembleBshfl, DisassembleExt, DisassembleIns, DisassemblePcRel1, DisassemblePcRel2;
    hide DisassembleImmediate, DisassembleLoadStore, Field16, Field21, Field26;
    hide Built, Op, Func, Rd, Rs, Rt, Shamt, Imm16, Imm19, Imm21, Imm26, PcFunc1, SignedField;
    var c := Assemble(i).value;
    BuiltFields(c);
    FieldsSignExtend(i.offset, Imm16(Built(c)), Imm21(Built(c)), Imm26(Built(c)));
  }

  lemma RegisterFormsAssemble(i: Instr)
    requires i.Nop? || i.Alu? || i.AluImm? || i.Shift? || i.TrapIf? || i.JumpReg? || i.JumpRegion?
    ensures Assemble(i).Some? ==> Disassemble(Built(Assemble(i).value)) == Some(i)
  {
    hide Built, Op, Func, Rd, Rs, Rt, Shamt, Imm16, Imm21, Imm26, SignedField;
    hide Pop06, Pop07, Pop10, Pop30, Pop27, Pop66, Pop76;
    if Assemble(i).Some? { BuiltFields(Assemble(i).value); }
  }

  lemma OffsetsAssemble(i: Instr)
    requires i.JumpIndexed? || i.Load? || i.Store?
    ensures Assemble(i).Some? ==> Disassemble(Built(Assemble(i).value)) == Some(i)
  {
    hide Built, Op, Func, Rd, Rs, Rt, Shamt, Imm16, Imm21, Imm26, SignedField;
    hide Pop06, Pop07, Pop10, Pop30, Pop26, Pop27;
    if Assemble(i).Some? {
      var raw := Built(Assemble(i).value);
      BuiltFields(Assemble(i).value);
      FieldsSignExtend(i.offset, Imm16(raw), Imm21(raw), Imm26(raw));
    }
  }

  lemma PcRelAssembles(i: Instr)
    requires i.LoadPc? || i.AddPc? || i.AlignedAddPc?
    ensures Assemble(i).Some? ==> Disassemble(Built(Assemble(i).value)) == Some(i)
  {
    hide Built, Op, Rs, Rt, Imm16, Imm19, PcFunc1;
    if Assemble(i).Some? { BuiltFields(Assemble(i).value); }
  }

  lemma FieldFormsAssemble(i: Instr)
    requires i.BitSwap? || i.Wsbh? || i.Align? || i.SignExtend? || i.Ext? || i.Ins?
    ensures Assemble(i).Some? ==> Disassemble(Built(Assemble(i).value)) == Some(i)
  {
    hide Built, Op, Func, Rd, Rs, Rt, Shamt;
    if Assemble(i).Some? { BuiltFields(Assemble(i).value); }
  }

  /** Every word an instruction assembles to disassembles to that instruction. */
  lemma AssembledDisassembles(i: Instr)
    ensures Assemble(i).Some? ==> Disassemble(Built(Assemble(i).value)) == Some(i)
  {
    hide Built, Disassemble, Assemble;
    match i
    case Branch(_, _, _, _, _) => if Assemble(i).Some? { BranchesAssemble(i); }
    case JumpIndexed(_, _, _) => OffsetsAssemble(i);
    case Load(_, _, _, _, _) => OffsetsAssemble(i);
    case Store(_, _, _, _) => OffsetsAssemble(i);
    case LoadPc(_, _) => PcRelAssembles(i);
    case AddPc(_, _) => PcRelAssembles(i);
    case AlignedAddPc(_, _) => PcRelAssembles(i);
    case BitSwap(_, _) => FieldFormsAssemble(i);
    case Wsbh(_, _) => FieldFormsAssemble(i);
    case Align(_, _, _, _) => FieldFormsAssemble(i);
    case SignExtend(_, _, _) => FieldFormsAssemble(i);
    case Ext(_, _, _, _) => FieldFormsAssemble(i);
    case Ins(_, _, _, _) => FieldFormsAssemble(i);
    case _ => RegisterFormsAssemble(i);
  }

  predicate Assembles(i: Option<Instr>) {
    i.Some? ==> Assemble(i.value).Some?
  }

  lemma OffsetsHaveFields(raw: Word)
    ensures Field16(SignedField(Imm16(raw), 16)).Some? && Field21(SignedField(Imm21(raw), 21)).Some?
    ensures Field26(SignedField(Imm26(raw), 26)).Some?
  {
    hide SignedField, Imm16, Imm21, Imm26;
    FieldsSignExtend(SignedField(Imm16(raw), 16), Imm16(raw), Imm21(raw), Imm26(raw));
    FieldsSignExtend(SignedField(Imm21(raw), 21), Imm16(raw), Imm21(raw), Imm26(raw));
    FieldsSignExtend(SignedField(Imm26(raw), 26), Imm16(raw), Imm21(raw), Imm26(raw));
  }

  lemma RTypeAssembles(raw: Word)
    ensures Assembles(DisassembleRType(raw))
  {
    hide Func, Rd, Rs, Rt, Shamt;
  }

  lemma PopsAssemble(raw: Word)
    ensures Assembles(Some(Pop06(raw))) && Assembles(Some(Pop07(raw)))
    ensures Assembles(Some(Pop10(raw))) && Assembles(Some(Pop30(raw)))
    ensures Assembles(Some(Pop26(raw))) && Assembles(Some(Pop27(raw)))
    ensures Assembles(Some(Pop66(raw))) && Assembles(Some(Pop76(raw)))
  {
    hide Rs, Rt, Imm16, Imm21, Imm26, SignedField, Field16, Field21, Field26;
    OffsetsHaveFields(raw);
  }

  lemma ImmediatesAssemble(raw: Word)
    ensures Assembles(DisassembleImmediate(raw)) && Assembles(DisassembleLoadStore(raw))
    ensures Assembles(DisassembleJType(raw)) && Assembles(DisassembleRegimm(raw))
  {
    hide Op, Rs, Rt, Imm16, Imm21, Imm26, SignedField, Field16, Field21, Field26;
    OffsetsHaveFields(raw);
  }

  lemma ITypeAssembles(raw: Word)
    ensures Assembles(DisassembleIType(raw))
  {
    hide Op, Rs, Rt, Imm16, Imm21, Imm26, SignedField, Field16, Field21, Field26, Pop06, Pop07, Pop10, Pop30;
    hide Pop26, Pop27, Pop66, Pop76, DisassembleImmediate, DisassembleLoadStore;
    OffsetsHaveFields(raw);
    PopsAssemble(raw);
    ImmediatesAssemble(raw);
  }

  lemma SpecialAssembles(raw: Word)
    ensures Assembles(DisassembleBshfl(raw)) && Assembles(DisassembleExt(raw)) && Assembles(DisassembleIns(raw))
    ensures Assembles(DisassemblePcRel1(raw)) && Assembles(DisassemblePcRel2(raw))
  {
    hide Rd, Rs, Rt, Shamt, PcFunc1, Imm16, Imm19;
  }

  /** Every instruction that some word disassembles to assembles. */
  lemma DisassembledAssembles(raw: Word)
    ensures Assembles(Disassemble(raw))
  {
    hide Op, Func, PcFunc1, DisassembleRType, DisassembleIType, DisassembleJType, DisassembleRegimm, Assemble;
    hide DisassembleBshfl, DisassembleExt, DisassembleIns, DisassemblePcRel1, DisassemblePcRel2;
    RTypeAssembles(raw);
    ITypeAssembles(raw);
    ImmediatesAssemble(raw);
    SpecialAssembles(raw);
  }

  /** An instruction has a word exactly when it assembles. */
  lemma EncodableIff(i: Instr)
    ensures (exists raw: Word :: Disassemble(raw) == Some(i)) <==> Assemble(i).Some?
  {
    hide Disassemble, Assemble, Built;
    AssembledDisassembles(i);
    forall raw: Word | Disassemble(raw) == Some(i)
      ensures Assemble(i).Some?
    {
      DisassembledAssembles(raw);
    }
  }

  // ---- From a constructor to the effect ----

  lemma WholeWord(w: Word)
    ensures w % Pow2(32) == w
  {
    Pow2At32();
  }

  /** An instruction that is assembled, stored at the program counter and stepped has its meaning: register and
      memory afterwards are those of the mnemonic's effect from the next address due, and the step succeeds
      exactly when the effect does. */
  lemma AssembledStep(env: Env, regs: Regs, mem: seq<Byte>, i: Instr)
    requires Assemble(i).Some? && Locate(env.bus, |mem|, regs.pc, 4).Ok?
    ensures WellFormed(i)
    ensures var raw := Built(Assemble(i).value);
            var mem' := Patch(mem, Locate(env.bus, |mem|, regs.pc, 4).value, Bytes(raw, 4));
            var e := Meaning(env, i, regs.gpr, NextPc(regs), mem');
            Step(env, Machine(regs, mem'))
            == Stepped(Machine(ApplyRegs(e, raw, UpdatePc(regs)), ApplyMem(e, mem')), e.Succeeds())
  {
    hide Assemble, Built, Disassemble, Meaning, Locate, Bytes, LittleEndian;
    var raw := Built(Assemble(i).value);
    var mem' := Patch(mem, Locate(env.bus, |mem|, regs.pc, 4).value, Bytes(raw, 4));
    AssembledDisassembles(i);
    ReadBack(env.bus, mem, regs.pc, 4, raw);
    WholeWord(raw);
    StepUnfolds(env, Machine(regs, mem'));
  }
}

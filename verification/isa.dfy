/** The reference machine: one mnemonic per instruction, its meaning over integers, and one step. */
module Isa {
  import opened Words
  import opened Instructions

  type Reg = Bits5
  type Gpr = s: seq<Word> | |s| == 32 witness seq(32, i => 0)

  const RA: Reg := 31
  const CAUSE_TR: nat := 13

  /** The results that C++ leaves undefined for shifting left by 32 and for INT32_MIN / -1, as a parameter. */
  datatype Host = Host(shl32: Word -> Word, quotient: Word, remainder: Word)

  /** A memory's constructor argument and its template's aligned_access. */
  datatype Bus = Bus(offset: Word, aligned: bool)

  datatype Env = Env(bus: Bus, host: Host)

  datatype Regs = Regs(gpr: Gpr, pc: Word, flag: bool, target: Word, badInstr: Word, cause: nat)
  datatype Machine = Machine(regs: Regs, mem: seq<Byte>)

  // ---- Mnemonics ----

  datatype Cond = EQ | NE | GE | LT | GEU | LTU | OVERFLOW | NO_OVERFLOW {
    function Negate(): Cond {
      match this
      case EQ => NE
      case NE => EQ
      case GE => LT
      case LT => GE
      case GEU => LTU
      case LTU => GEU
      case OVERFLOW => NO_OVERFLOW
      case NO_OVERFLOW => OVERFLOW
    }

    predicate Holds(a: Word, b: Word) {
      match this
      case EQ => a == b
      case NE => a != b
      case GE => Signed(a) >= Signed(b)
      case LT => Signed(a) < Signed(b)
      case GEU => a >= b
      case LTU => a < b
      case OVERFLOW => OverflowFlag(a, b)
      case NO_OVERFLOW => !OverflowFlag(a, b)
    }
  }

  predicate SumOverflows(a: Word, b: Word) {
    !(-0x8000_0000 <= Signed(a) + Signed(b) < 0x8000_0000)
  }

  /** What BOVC and BNVC branch on: set for every pair of operands of different sign, too. */
  predicate OverflowFlag(a: Word, b: Word) {
    (Signed(a) < 0) != (Signed(b) < 0) || SumOverflows(a, b)
  }

  datatype AluOp =
    | Add | Sub | Mul | Muh | Muhu | Div | Mod | Divu | Modu | BitAnd | BitNor | BitOr | BitXor
    | Slt | Sltu | Seleqz | Selnez | Clz | Clo

  datatype ImmOp = Addiu | Aui | Slti | Sltiu | Andi | Ori | Xori
  datatype ShiftOp = Sll | Srl | Sra | Rotr
  datatype Amount = Fixed(n: nat) | ByReg(r: Reg)
  datatype BranchKind = Delayed | Compact | CompactLink

  datatype Instr =
    | Nop
    | Alu(alu: AluOp, rd: Reg, rs: Reg, rt: Reg)
    | AluImm(imm: ImmOp, rt: Reg, rs: Reg, value: nat)
    | Shift(shift: ShiftOp, rd: Reg, rt: Reg, amount: Amount)
    | TrapIf(cond: Cond, rs: Reg, rt: Reg)
    | Branch(cond: Cond, a: Reg, b: Reg, offset: int, kind: BranchKind)
    | JumpReg(rs: Reg, link: bool)
    | JumpRegion(index: nat, link: bool)
    | JumpIndexed(rt: Reg, offset: int, link: bool)
    | Load(width: nat, signed: bool, rt: Reg, rs: Reg, offset: int)
    | Store(width: nat, rt: Reg, rs: Reg, offset: int)
    | LoadPc(rs: Reg, distance: nat)
    | AddPc(rs: Reg, distance: nat)
    | AlignedAddPc(rs: Reg, distance: nat)
    | BitSwap(rd: Reg, rt: Reg)
    | Wsbh(rd: Reg, rt: Reg)
    | Align(rd: Reg, rs: Reg, rt: Reg, bp: nat)
    | SignExtend(rd: Reg, rt: Reg, width: nat)
    | Ext(rt: Reg, rs: Reg, lsb: nat, size: nat)
    | Ins(rt: Reg, rs: Reg, lsb: nat, size: nat)

  predicate WellFormed(i: Instr) {
    match i
    case Shift(_, _, _, Fixed(n)) => n < 32
    case AluImm(_, _, _, v) => v < 0x1_0000
    case Load(w, _, _, _, _) => IsWidth(w)
    case Store(w, _, _, _) => IsWidth(w)
    case Align(_, _, _, bp) => bp < 4
    case SignExtend(_, _, w) => w == 8 || w == 16
    case Ext(_, _, lsb, size) => lsb + size <= 32
    case Ins(_, _, lsb, size) => lsb + size <= 32
    case JumpRegion(index, _) => index < 0x400_0000
    case _ => true
  }

  function DisassembleRType(raw: Word): (i: Option<Instr>)
    ensures i.Some? ==> WellFormed(i.value)
  {
    var rd, rs, rt, shamt := Rd(raw), Rs(raw), Rt(raw), Shamt(raw);
    match Func(raw)
    case 32 => Some(Alu(Add, rd, rs, rt))
    case 33 => Some(Alu(Add, rd, rs, rt))
    case 34 => Some(Alu(Sub, rd, rs, rt))
    case 35 => Some(Alu(Sub, rd, rs, rt))
    case 24 => Some(Alu(if shamt == 2 then Mul else Muh, rd, rs, rt))
    case 25 => Some(Alu(if shamt == 2 then Mul else Muhu, rd, rs, rt))
    case 26 => Some(Alu(if shamt == 2 then Div else Mod, rd, rs, rt))
    case 27 => Some(Alu(if shamt == 2 then Divu else Modu, rd, rs, rt))
    case 36 => Some(Alu(BitAnd, rd, rs, rt))
    case 37 => Some(Alu(BitOr, rd, rs, rt))
    case 38 => Some(Alu(BitXor, rd, rs, rt))
    case 39 => Some(Alu(BitNor, rd, rs, rt))
    case 42 => Some(Alu(Slt, rd, rs, rt))
    case 43 => Some(Alu(Sltu, rd, rs, rt))
    case 53 => Some(Alu(Seleqz, rd, rs, rt))
    case 55 => Some(Alu(Selnez, rd, rs, rt))
    case 16 => Some(Alu(Clz, rd, rs, rt))
    case 11 => Some(Alu(Clo, rd, rs, rt))
    case 0 => Some(Shift(Sll, rd, rt, Fixed(shamt)))
    case 2 => Some(Shift(if rs % 2 == 1 then Rotr else Srl, rd, rt, Fixed(shamt)))
    case 3 => Some(Shift(Sra, rd, rt, Fixed(shamt)))
    case 4 => Some(Shift(Sll, rd, rt, ByReg(rs)))
    case 6 => Some(Shift(if shamt % 2 == 1 then Rotr else Srl, rd, rt, ByReg(rs)))
    case 7 => Some(Shift(Sra, rd, rt, ByReg(rs)))
    case 8 => Some(JumpReg(rs, false))
    case 9 => Some(JumpReg(rs, true))
    case 48 => Some(TrapIf(GE, rs, rt))
    case 49 => Some(TrapIf(GEU, rs, rt))
    case 50 => Some(TrapIf(LT, rs, rt))
    case 51 => Some(TrapIf(LTU, rs, rt))
    case 52 => Some(TrapIf(EQ, rs, rt))
    case 54 => Some(TrapIf(NE, rs, rt))
    case _ => None
  }

  function Offset16(raw: Word): int {
    SignedField(Imm16(raw), 16)
  }

  /** BLEZ, BLEZALC, BGEZALC and BGEUC share an opcode; $0 stands for the constant zero. */
  function Pop06(raw: Word): (i: Instr)
    ensures WellFormed(i)
  {
    var rs, rt := Rs(raw), Rt(raw);
    if rt == 0 then Branch(GE, 0, rs, Offset16(raw), Delayed)
    else if rs == 0 then Branch(GE, 0, rt, Offset16(raw), CompactLink)
    else if rs == rt then Branch(GE, rt, 0, Offset16(raw), CompactLink)
    else Branch(GEU, rs, rt, Offset16(raw), Compact)
  }

  /** BGTZ, BGTZALC, BLTZALC, BLTUC. */
  function Pop07(raw: Word): (i: Instr)
    ensures WellFormed(i)
  {
    var rs, rt := Rs(raw), Rt(raw);
    if rt == 0 then Branch(LT, 0, rs, Offset16(raw), Delayed)
    else if rs == 0 then Branch(LT, 0, rt, Offset16(raw), CompactLink)
    else if rs == rt then Branch(LT, rt, 0, Offset16(raw), CompactLink)
    else Branch(LTU, rs, rt, Offset16(raw), Compact)
  }

  /** BOVC, BEQZALC, BEQC. */
  function Pop10(raw: Word): (i: Instr)
    ensures WellFormed(i)
  {
    var rs, rt := Rs(raw), Rt(raw);
    if rs >= rt then Branch(OVERFLOW, rs, rt, Offset16(raw), Compact)
    else Branch(EQ, rs, rt, Offset16(raw), if rs == 0 then CompactLink else Compact)
  }

  /** BNVC, BNEZALC, BNEC. */
  function Pop30(raw: Word): (i: Instr)
    ensures WellFormed(i)
  {
    var rs, rt := Rs(raw), Rt(raw);
    if rs >= rt then Branch(NO_OVERFLOW, rs, rt, Offset16(raw), Compact)
    else Branch(NE, rs, rt, Offset16(raw), if rs == 0 then CompactLink else Compact)
  }

  /** BLEZC, BGEZC, BGEC; with rt = $0 nothing is done. */
  function Pop26(raw: Word): (i: Instr)
    ensures WellFormed(i)
  {
    var rs, rt := Rs(raw), Rt(raw);
    if rt == 0 then Nop
    else if rs == rt then Branch(GE, rt, 0, Offset16(raw), Compact)
    else Branch(GE, rs, rt, Offset16(raw), Compact)
  }

  /** BGTZC, BLTZC, BLTC; with rt = $0 nothing is done. */
  function Pop27(raw: Word): (i: Instr)
    ensures WellFormed(i)
  {
    var rs, rt := Rs(raw), Rt(raw);
    if rt == 0 then Nop
    else if rs == rt then Branch(LT, rt, 0, Offset16(raw), Compact)
    else Branch(LT, rs, rt, Offset16(raw), Compact)
  }

  /** JIC and BEQZC. */
  function Pop66(raw: Word): (i: Instr)
    ensures WellFormed(i)
  {
    if Rs(raw) == 0 then JumpIndexed(Rt(raw), Offset16(raw), false)
    else Branch(EQ, Rs(raw), 0, SignedField(Imm21(raw), 21), Compact)
  }

  /** JIALC and BNEZC. */
  function Pop76(raw: Word): (i: Instr)
    ensures WellFormed(i)
  {
    if Rs(raw) == 0 then JumpIndexed(Rt(raw), Offset16(raw), true)
    else Branch(NE, Rs(raw), 0, SignedField(Imm21(raw), 21), Compact)
  }

  function DisassembleImmediate(raw: Word): (i: Option<Instr>)
    ensures i.Some? ==> WellFormed(i.value)
  {
    var rs, rt := Rs(raw), Rt(raw);
    match Op(raw)
    case 9 => Some(AluImm(Addiu, rt, rs, Imm16(raw)))
    case 10 => Some(AluImm(Slti, rt, rs, Imm16(raw)))
    case 11 => Some(AluImm(Sltiu, rt, rs, Imm16(raw)))
    case 12 => Some(AluImm(Andi, rt, rs, Imm16(raw)))
    case 13 => Some(AluImm(Ori, rt, rs, Imm16(raw)))
    case 14 => Some(AluImm(Xori, rt, rs, Imm16(raw)))
    case 15 => Some(AluImm(Aui, rt, rs, Imm16(raw)))
    case _ => None
  }

  function DisassembleLoadStore(raw: Word): (i: Option<Instr>)
    ensures i.Some? ==> WellFormed(i.value)
  {
    var rs, rt, offset := Rs(raw), Rt(raw), Offset16(raw);
    match Op(raw)
    case 32 => Some(Load(1, true, rt, rs, offset))
    case 33 => Some(Load(2, true, rt, rs, offset))
    case 35 => Some(Load(4, true, rt, rs, offset))
    case 36 => Some(Load(1, false, rt, rs, offset))
    case 37 => Some(Load(2, false, rt, rs, offset))
    case 40 => Some(Store(1, rt, rs, offset))
    case 41 => Some(Store(2, rt, rs, offset))
    case 43 => Some(Store(4, rt, rs, offset))
    case _ => None
  }

  function DisassembleIType(raw: Word): (i: Option<Instr>)
    ensures i.Some? ==> WellFormed(i.value)
  {
    hide DisassembleImmediate, DisassembleLoadStore, SignedField, Op, Rs, Rt, Imm16;
    hide Pop06, Pop07, Pop10, Pop30, Pop26, Pop27, Pop66, Pop76;
    match Op(raw)
    case 4 => Some(Branch(EQ, Rs(raw), Rt(raw), Offset16(raw), Delayed))
    case 5 => Some(Branch(NE, Rs(raw), Rt(raw), Offset16(raw), Delayed))
    case 6 => Some(Pop06(raw))
    case 7 => Some(Pop07(raw))
    case 8 => Some(Pop10(raw))
    case 22 => Some(Pop26(raw))
    case 23 => Some(Pop27(raw))
    case 24 => Some(Pop30(raw))
    case 54 => Some(Pop66(raw))
    case 62 => Some(Pop76(raw))
    case op => if op < 32 then DisassembleImmediate(raw) else DisassembleLoadStore(raw)
  }

  /** J, JAL, BC, BALC. */
  function DisassembleJType(raw: Word): (i: Option<Instr>)
    ensures i.Some? ==> WellFormed(i.value)
  {
    match Op(raw)
    case 2 => Some(JumpRegion(Imm26(raw), false))
    case 3 => Some(JumpRegion(Imm26(raw), true))
    case 50 => Some(Branch(EQ, 0, 0, SignedField(Imm26(raw), 26), Compact))
    case 58 => Some(Branch(EQ, 0, 0, SignedField(Imm26(raw), 26), CompactLink))
    case _ => None
  }

  /** BGEZ, BLTZ. */
  function DisassembleRegimm(raw: Word): (i: Option<Instr>)
    ensures i.Some? ==> WellFormed(i.value)
  {
    match Rt(raw)
    case 1 => Some(Branch(GE, Rs(raw), 0, Offset16(raw), Delayed))
    case 0 => Some(Branch(LT, Rs(raw), 0, Offset16(raw), Delayed))
    case _ => None
  }

  function DisassembleBshfl(raw: Word): (i: Option<Instr>)
    ensures i.Some? ==> WellFormed(i.value)
  {
    var rd, rs, rt := Rd(raw), Rs(raw), Rt(raw);
    match Shamt(raw)
    case 0 => Some(BitSwap(rd, rt))
    case 2 => Some(Wsbh(rd, rt))
    case 8 => Some(Align(rd, rs, rt, 0))
    case 9 => Some(Align(rd, rs, rt, 1))
    case 10 => Some(Align(rd, rs, rt, 2))
    case 11 => Some(Align(rd, rs, rt, 3))
    case 16 => Some(SignExtend(rd, rt, 8))
    case 24 => Some(SignExtend(rd, rt, 16))
    case _ => None
  }

  function DisassembleExt(raw: Word): (i: Option<Instr>)
    ensures i.Some? ==> WellFormed(i.value)
  {
    var lsb, size := Shamt(raw), Rd(raw) + 1;
    if lsb + size <= 32 then Some(Ext(Rt(raw), Rs(raw), lsb, size)) else None
  }

  function DisassembleIns(raw: Word): (i: Option<Instr>)
    ensures i.Some? ==> WellFormed(i.value)
  {
    var lsb, msb := Shamt(raw), Rd(raw);
    if lsb <= msb then Some(Ins(Rt(raw), Rs(raw), lsb, msb - lsb + 1)) else None
  }

  /** ADDIUPC, LWPC: the 19-bit distance in words is not sign-extended. */
  function DisassemblePcRel1(raw: Word): (i: Option<Instr>)
    ensures i.Some? ==> WellFormed(i.value)
  {
    match PcFunc1(raw)
    case 0 => Some(AddPc(Rs(raw), 4 * Imm19(raw)))
    case 1 => Some(LoadPc(Rs(raw), 4 * Imm19(raw)))
    case _ => None
  }

  /** AUIPC, ALUIPC. */
  function DisassemblePcRel2(raw: Word): (i: Option<Instr>)
    ensures i.Some? ==> WellFormed(i.value)
  {
    match Rt(raw)
    case 30 => Some(AddPc(Rs(raw), 0x1_0000 * Imm16(raw)))
    case 31 => Some(AlignedAddPc(Rs(raw), 0x1_0000 * Imm16(raw)))
    case _ => None
  }

  function Disassemble(raw: Word): (i: Option<Instr>)
    ensures i.Some? ==> WellFormed(i.value)
  {
    match Op(raw)
    case 0 => DisassembleRType(raw)
    case 1 => DisassembleRegimm(raw)
    case 2 | 3 | 50 | 58 => DisassembleJType(raw)
    case 31 =>
      if Func(raw) == 32 then DisassembleBshfl(raw)
      else if Func(raw) == 0 then DisassembleExt(raw)
      else if Func(raw) == 4 then DisassembleIns(raw)
      else None
    case 59 => if PcFunc1(raw) <= 1 then DisassemblePcRel1(raw) else DisassemblePcRel2(raw)
    case _ => DisassembleIType(raw)
  }

  // ---- Values ----

  function Abs(n: int): nat {
    if n < 0 then -n else n
  }

  /** C++ division truncates toward zero and its remainder takes the dividend's sign. */
  function TruncDiv(a: int, b: int): int
    requires b != 0
  {
    if (a < 0) == (b < 0) then Abs(a) / Abs(b) else -(Abs(a) / Abs(b))
  }

  function TruncMod(a: int, b: int): int
    requires b != 0
  {
    if a < 0 then -(Abs(a) % Abs(b)) else Abs(a) % Abs(b)
  }

  function HighUnsigned(a: Word, b: Word): Word {
    Wrap(a * b / TWO32)
  }

  function HighSigned(a: Word, b: Word): Word {
    Wrap(Signed(a) * Signed(b) / TWO32)
  }

  function LowProduct(a: Word, b: Word): Word {
    Wrap(a * b)
  }

  predicate DivideOverflows(a: Word, b: Word) {
    a == 0x8000_0000 && b == ALL_ONES
  }

  function Quotient(host: Host, a: Word, b: Word): Word
    requires b != 0
  {
    if DivideOverflows(a, b) then host.quotient else Wrap(TruncDiv(Signed(a), Signed(b)))
  }

  function Remainder(host: Host, a: Word, b: Word): Word
    requires b != 0
  {
    if DivideOverflows(a, b) then host.remainder else Wrap(TruncMod(Signed(a), Signed(b)))
  }

  function QuotientUnsigned(a: Word, b: Word): Word
    requires b != 0
  {
    Wrap(a / b)
  }

  function RemainderUnsigned(a: Word, b: Word): Word
    requires b != 0
  {
    Wrap(a % b)
  }

  function LeadingZeros(x: Word): Word {
    Pow2Table();
    BitLengthBound(x, 32);
    32 - BitLength(x)
  }

  lemma {:induction false} BitLengthBound(x: nat, k: nat)
    requires x < Pow2(k)
    ensures BitLength(x) <= k
  {
    if x != 0 { BitLengthBound(x / 2, k - 1); }
  }

  /** None is the division by zero that the executor refuses. */
  function AluValue(host: Host, op: AluOp, a: Word, b: Word): Option<Word> {
    match op
    case Add => Some(Wrap(a + b))
    case Sub => Some(Wrap(a - b))
    case Mul => Some(LowProduct(a, b))
    case Muh => Some(HighSigned(a, b))
    case Muhu => Some(HighUnsigned(a, b))
    case Div => if b == 0 then None else Some(Quotient(host, a, b))
    case Mod => if b == 0 then None else Some(Remainder(host, a, b))
    case Divu => if b == 0 then None else Some(QuotientUnsigned(a, b))
    case Modu => if b == 0 then None else Some(RemainderUnsigned(a, b))
    case BitAnd => Some(And(a, b))
    case BitNor => Some(Not(Or(a, b)))
    case BitOr => Some(Or(a, b))
    case BitXor => Some(Xor(a, b))
    case Slt => Some(if Signed(a) < Signed(b) then 1 else 0)
    case Sltu => Some(if a < b then 1 else 0)
    case Seleqz => Some(if b == 0 then a else 0)
    case Selnez => Some(if b == 0 then 0 else a)
    case Clz => Some(LeadingZeros(a))
    case Clo => Some(LeadingZeros(Not(a)))
  }

  function ImmValue(op: ImmOp, a: Word, imm: nat): Word
    requires imm < 0x1_0000
  {
    match op
    case Addiu => Wrap(a + SignedField(imm, 16))
    case Aui => Wrap(a + 0x1_0000 * imm)
    case Slti => if Signed(a) < SignedField(imm, 16) then 1 else 0
    case Sltiu => if a < Wrap(SignedField(imm, 16)) then 1 else 0
    case Andi => And(a, imm)
    case Ori => Or(a, imm)
    case Xori => Xor(a, imm)
  }

  /** Division by 2^s, rounding down: what an arithmetic right shift means. */
  function ArithmeticShift(x: Word, s: nat): Word {
    Wrap(Signed(x) / Pow2(s))
  }

  function RotateRight(x: Word, s: nat): Word
    requires s <= 32
  {
    Wrap(Drop(x, s) + Lift(Keep(x, s), 32 - s))
  }

  function ShiftValue(host: Host, op: ShiftOp, x: Word, s: nat): Word
    requires s < 32
  {
    match op
    case Sll => Wrap(Lift(x, s))
    case Srl => Drop(x, s)
    case Sra =>
      if s > 0 then ArithmeticShift(x, s)
      else if Signed(x) < 0 then Or(host.shl32(ALL_ONES), x) else x
    case Rotr => if s > 0 then RotateRight(x, s) else Or(x, host.shl32(x))
  }

  function Mirror(i: nat): nat {
    8 * (i / 8) + (7 - i % 8)
  }

  /** Every byte with its bits in reverse order. */
  function ReverseBytes(x: Word): Word {
    Pow2Table();
    FromBits(seq(32, i requires 0 <= i < 32 => Bit(x, Mirror(i))))
  }

  function SwapHalfwordBytes(x: Word): Word {
    x / 0x100 % 0x100 + 0x100 * (x % 0x100) + 0x1_0000 * (x / 0x100_0000) + 0x100_0000 * (x / 0x1_0000 % 0x100)
  }

  /** The high word of the 64-bit number hi:lo shifted left by s bits. */
  function AlignShift(hi: Word, lo: Word, s: nat): Word {
    Wrap(Lift(hi * TWO32 + lo, s) / TWO32)
  }

  function ExtractField(x: Word, lsb: nat, size: nat): Word {
    Keep(Drop(x, lsb), size)
  }

  /** x with the size bits at lsb replaced by the low bits of v. */
  function InsertField(x: Word, v: Word, lsb: nat, size: nat): Word {
    Wrap(Lift(Lift(Drop(x, lsb + size), size) + Keep(v, size), lsb) + Keep(x, lsb))
  }

  // ---- Memory ----

  datatype MemoryError = UnalignedAccess | OutOfBoundsAccess
  datatype Result<+T> = Ok(value: T) | Err(error: MemoryError)

  function LittleEndian(b: seq<Byte>): nat {
    if b == [] then 0 else b[0] + 0x100 * LittleEndian(b[1..])
  }

  function Bytes(v: nat, n: nat): (b: seq<Byte>)
    ensures |b| == n
  {
    if n == 0 then [] else [v % 0x100] + Bytes(v / 0x100, n - 1)
  }

  predicate IsWidth(width: nat) {
    width == 1 || width == 2 || width == 4
  }

  /** The buffer index of an access; get_size() is a uint32_t and the comparison is strict. */
  function Locate(bus: Bus, size: nat, addr: Word, width: nat): (r: Result<nat>)
    ensures r.Ok? ==> r.value == addr - bus.offset && r.value + width < size
  {
    if bus.aligned && width > 1 && addr % width != 0 then Err(UnalignedAccess)
    else if bus.offset <= addr && addr - bus.offset + width < size % TWO32 then
      SizeFits(size);
      Ok(addr - bus.offset)
    else Err(OutOfBoundsAccess)
  }

  lemma SizeFits(size: nat)
    ensures size % TWO32 <= size
  {}

  lemma LittleEndianBound(b: seq<Byte>)
    requires |b| <= 4
    ensures LittleEndian(b) < 0x1_0000_0000
    ensures |b| <= 2 ==> LittleEndian(b) < 0x1_0000
    ensures |b| <= 1 ==> LittleEndian(b) < 0x100
  {
    if b != [] && b[1..] != [] && b[1..][1..] != [] { assert |b[1..][1..][1..]| <= 1; }
  }

  function Read(bus: Bus, mem: seq<Byte>, addr: Word, width: nat): Result<Word>
    requires IsWidth(width)
  {
    match Locate(bus, |mem|, addr, width)
    case Err(e) => Err(e)
    case Ok(i) =>
      LittleEndianBound(mem[i..i + width]);
      Ok(LittleEndian(mem[i..i + width]))
  }

  function Patch(mem: seq<Byte>, i: nat, b: seq<Byte>): seq<Byte>
    requires i + |b| <= |mem|
  {
    mem[..i] + b + mem[i + |b|..]
  }

  // ---- Effects ----

  datatype Write = NoWrite | To(r: Reg, v: Word)
  datatype Control = Next | After(target: Word) | Now(target: Word)

  datatype Effect =
    | Fail
    | Trap
    | Done(write: Write, control: Control)
    | Stored(index: nat, bytes: seq<Byte>)
  {
    predicate Succeeds() { Done? || Stored? }

    predicate Fits(mem: seq<Byte>) {
      Stored? ==> index + |bytes| < |mem|
    }
  }

  function Set(r: Reg, v: Word): Effect {
    Done(To(r, v), Next)
  }

  function Link(link: bool, pc: Word): Write {
    if link then To(RA, pc) else NoWrite
  }

  function AmountOf(amount: Amount, gpr: Gpr): nat {
    match amount
    case Fixed(n) => n
    case ByReg(r) => gpr[r] % 32
  }

  /** pc is the already advanced program counter: the address a sequential machine runs next. */
  function BranchEffect(taken: bool, target: Word, kind: BranchKind, pc: Word): Effect {
    if !taken then Done(NoWrite, Next)
    else if kind == Delayed then Done(NoWrite, After(target))
    else Done(Link(kind == CompactLink, pc), Now(target))
  }

  /** What an instruction that leaves memory alone does. */
  function Compute(host: Host, i: Instr, gpr: Gpr, pc: Word): (e: Effect)
    requires WellFormed(i)
    ensures !e.Stored?
  {
    match i
    case Alu(op, rd, rs, rt) =>
      (match AluValue(host, op, gpr[rs], gpr[rt])
       case None => Fail
       case Some(v) => Set(rd, v))
    case AluImm(op, rt, rs, imm) => Set(rt, ImmValue(op, gpr[rs], imm))
    case Shift(op, rd, rt, amount) => Set(rd, ShiftValue(host, op, gpr[rt], AmountOf(amount, gpr)))
    case TrapIf(cond, rs, rt) => if cond.Holds(gpr[rs], gpr[rt]) then Trap else Done(NoWrite, Next)
    case Branch(cond, a, b, offset, kind) =>
      BranchEffect(cond.Holds(gpr[a], gpr[b]), Wrap(pc + 4 * offset), kind, pc)
    case JumpReg(rs, link) => Done(Link(link, pc), After(gpr[rs]))
    case JumpRegion(index, link) => Done(Link(link, pc), After(Wrap(pc / 0x1000_0000 * 0x1000_0000 + 4 * index)))
    case JumpIndexed(rt, offset, link) =>
      // JIALC writes $31 before it reads the base register.
      var base := if link && rt == RA then pc else gpr[rt];
      Done(Link(link, pc), Now(Wrap(base + offset)))
    case AddPc(rs, distance) => Set(rs, Wrap(pc + distance))
    case AlignedAddPc(rs, distance) => Set(rs, Wrap(pc + distance) / 0x1_0000 * 0x1_0000)
    case BitSwap(rd, rt) => Set(rd, ReverseBytes(gpr[rt]))
    case Wsbh(rd, rt) => Set(rd, SwapHalfwordBytes(gpr[rt]))
    case Align(rd, rs, rt, bp) => Set(rd, AlignShift(gpr[rt], gpr[rs], 8 * bp))
    case SignExtend(rd, rt, width) => Set(rd, Wrap(SignedField(Keep(gpr[rt], width), width)))
    case Ext(rt, rs, lsb, size) => Set(rt, ExtractField(gpr[rs], lsb, size))
    case Ins(rt, rs, lsb, size) => Set(rt, InsertField(gpr[rt], gpr[rs], lsb, size))
    case _ => Done(NoWrite, Next)
  }

  /** The effect of a word that may not be an instruction at all. */
  function Attempt(host: Host, i: Option<Instr>, gpr: Gpr, pc: Word): (e: Effect)
    requires i.Some? ==> WellFormed(i.value)
    ensures !e.Stored?
  {
    match i
    case None => Fail
    case Some(i) => Compute(host, i, gpr, pc)
  }

  function LoadedValue(v: Word, width: nat, signed: bool): Word
    requires IsWidth(width)
  {
    if signed then Wrap(SignedField(v, 8 * width)) else v
  }

  function Meaning(env: Env, i: Instr, gpr: Gpr, pc: Word, mem: seq<Byte>): (e: Effect)
    requires WellFormed(i)
    ensures e.Fits(mem)
  {
    hide Compute;
    match i
    case Load(width, signed, rt, rs, offset) =>
      (match Read(env.bus, mem, Wrap(gpr[rs] + offset), width)
       case Err(_) => Fail
       case Ok(v) => Set(rt, LoadedValue(v, width, signed)))
    case Store(width, rt, rs, offset) =>
      (match Locate(env.bus, |mem|, Wrap(gpr[rs] + offset), width)
       case Err(_) => Fail
       case Ok(index) => Stored(index, Bytes(gpr[rt], width)))
    case LoadPc(rs, distance) =>
      (match Read(env.bus, mem, Wrap(pc + distance), 4)
       case Err(_) => Fail
       case Ok(v) => Set(rs, v))
    case _ => Compute(env.host, i, gpr, pc)
  }

  function WriteGpr(gpr: Gpr, w: Write): Gpr {
    match w
    case NoWrite => gpr
    case To(r, v) => gpr[r := v][0 := 0]
  }

  function ApplyRegs(e: Effect, raw: Word, r: Regs): Regs {
    match e
    case Fail => r
    case Stored(_, _) => r
    case Trap => r.(badInstr := raw, cause := CAUSE_TR)
    case Done(w, control) =>
      var s := r.(gpr := WriteGpr(r.gpr, w));
      match control
      case Next => s
      case After(t) => s.(flag := true, target := t)
      case Now(t) => s.(pc := t)
  }

  function ApplyMem(e: Effect, mem: seq<Byte>): seq<Byte>
    requires e.Fits(mem)
  {
    if e.Stored? then Patch(mem, e.index, e.bytes) else mem
  }

  // ---- One step ----

  function UpdatePc(r: Regs): Regs {
    r.(pc := if r.flag then r.target else Wrap(r.pc + 4), flag := false)
  }

  /** The effect of a word, in a machine whose program counter has already been advanced. */
  function AttemptMem(env: Env, i: Option<Instr>, gpr: Gpr, pc: Word, mem: seq<Byte>): (e: Effect)
    requires i.Some? ==> WellFormed(i.value)
    ensures e.Fits(mem)
  {
    match i
    case None => Fail
    case Some(i) => Meaning(env, i, gpr, pc, mem)
  }

  function EffectOf(env: Env, raw: Word, gpr: Gpr, pc: Word, mem: seq<Byte>): (e: Effect)
    ensures e.Fits(mem)
  {
    AttemptMem(env, Disassemble(raw), gpr, pc, mem)
  }

  datatype Stepped = Stepped(machine: Machine, ok: bool)

  function Step(env: Env, m: Machine): Stepped {
    match Read(env.bus, m.mem, m.regs.pc, 4)
    case Err(_) => Stepped(m, false)
    case Ok(raw) =>
      var r := UpdatePc(m.regs);
      var e := EffectOf(env, raw, r.gpr, r.pc, m.mem);
      Stepped(Machine(ApplyRegs(e, raw, r), ApplyMem(e, m.mem)), e.Succeeds())
  }

  function Run(env: Env, m: Machine, n: nat): Machine {
    if n == 0 then m else Step(env, Run(env, m, n - 1)).machine
  }
}

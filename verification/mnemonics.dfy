/** What each instruction word does to the machine, mnemonic by mnemonic, in terms of numbers and bits only. */
module Mnemonics {
  import opened Words
  import opened Instructions
  import opened Isa
  import opened Runs
  import opened BitTricks
  import opened Arithmetic
  import opened MemoryLaws

  function RsOf(m: Machine, raw: Word): Word {
    m.regs.gpr[Rs(raw)]
  }

  function RtOf(m: Machine, raw: Word): Word {
    m.regs.gpr[Rt(raw)]
  }

  /** The 16-, 21- and 26-bit immediates as signed numbers. */
  function SignedImm(raw: Word): int {
    if Imm16(raw) < 0x8000 then Imm16(raw) else Imm16(raw) - 0x1_0000
  }

  function SignedLong(raw: Word): int {
    if Imm21(raw) < 0x10_0000 then Imm21(raw) else Imm21(raw) - 0x20_0000
  }

  function SignedJump(raw: Word): int {
    if Imm26(raw) < 0x200_0000 then Imm26(raw) else Imm26(raw) - 0x400_0000
  }

  lemma SignedImmediates(raw: Word)
    ensures SignedImm(raw) == SignedField(Imm16(raw), 16) == Offset16(raw)
    ensures SignedLong(raw) == SignedField(Imm21(raw), 21)
    ensures SignedJump(raw) == SignedField(Imm26(raw), 26)
  {
    hide Imm16, Imm21, Imm26;
    Pow2Table();
  }

  // ---- What an effect is ----

  /** The effect writes one register and nothing else. */
  predicate Writes(e: Effect, r: Reg) {
    e.Done? && e.control.Next? && e.write.To? && e.write.r == r
  }

  const NOTHING: Effect := Done(NoWrite, Next)

  /** A register write other than to $0 shows, and no other register moves. */
  predicate Updated(gpr: Gpr, w: Write, gpr': Gpr) {
    match w
    case NoWrite => gpr' == gpr
    case To(r, v) => forall j: Reg :: gpr'[j] == if j == 0 then 0 else if j == r then v else gpr[j]
  }

  /** The bytes b stand at index i, and no other byte moves. */
  predicate Overwritten(mem: seq<Byte>, i: nat, b: seq<Byte>, mem': seq<Byte>) {
    && |mem'| == |mem|
    && forall k :: 0 <= k < |mem| ==> mem'[k] == if i <= k < i + |b| then b[k - i] else mem[k]
  }

  lemma PatchOverwrites(mem: seq<Byte>, i: nat, b: seq<Byte>)
    requires i + |b| <= |mem|
    ensures Overwritten(mem, i, b, Patch(mem, i, b))
  {}

  /** The machine after a fetched word, effect by effect: whether the step succeeds, every register, every byte,
      the program counter, the pending branch, and what a trap records (cause 13). */
  lemma EffectOnMachine(env: Env, m: Machine, raw: Word)
    requires Fetch(env, m) == Ok(raw)
    ensures var after, ok := Step(env, m).machine, Step(env, m).ok;
            match EffectAt(env, m, raw)
            case Fail => !ok && after == m.(regs := m.regs.(pc := NextPc(m.regs), flag := false))
            case Trap =>
              !ok && after == m.(regs := m.regs.(pc := NextPc(m.regs), flag := false, badInstr := raw, cause := 13))
            case Stored(i, b) =>
              && ok && after.regs == m.regs.(pc := NextPc(m.regs), flag := false)
              && Overwritten(m.mem, i, b, after.mem)
            case Done(w, control) =>
              && ok && after.mem == m.mem
              && Updated(m.regs.gpr, w, after.regs.gpr)
              && after.regs.badInstr == m.regs.badInstr && after.regs.cause == m.regs.cause
              && after.regs.pc == (if control.Now? then control.target else NextPc(m.regs))
              && after.regs.flag == control.After?
              && (control.After? ==> after.regs.target == control.target)
  {
    hide EffectAt, Read, Patch, Overwritten, NextPc, Updated, WriteGpr, UpdatePc;
    StepUnfolds(env, m);
    Advances(m.regs);
    match EffectAt(env, m, raw)
    case Stored(i, b) => PatchOverwrites(m.mem, i, b);
    case Done(w, _) => WriteUpdates(m.regs.gpr, w);
    case _ =>
  }

  lemma Advances(r: Regs)
    ensures UpdatePc(r) == r.(pc := NextPc(r), flag := false)
  {}

  lemma WriteUpdates(gpr: Gpr, w: Write)
    ensures Updated(gpr, w, WriteGpr(gpr, w))
  {}

  // ---- Which table a word is looked up in ----

  lemma RegisterWord(env: Env, m: Machine, raw: Word)
    requires Op(raw) == 0
    ensures EffectAt(env, m, raw) == Attempt(env.host, DisassembleRType(raw), m.regs.gpr, NextPc(m.regs))
  {
    hide Op, Func, Rs, Rt, Rd, Shamt, Compute;
  }

  // ---- ADD, ADDU, SUB, SUBU ----

  /** Sums and differences modulo 2^32. */
  lemma Sums(env: Env, m: Machine, raw: Word)
    requires Op(raw) == 0 && 32 <= Func(raw) <= 35
    ensures var a: int, b: int := RsOf(m, raw), RtOf(m, raw);
            EffectAt(env, m, raw) == Set(Rd(raw), (if Func(raw) <= 33 then a + b else a - b) % 0x1_0000_0000)
  {
    hide Op, Func, Rs, Rt, Rd, Shamt;
    RegisterWord(env, m, raw);
  }

  // ---- MUL, MUH, MULU, MUHU ----

  /** The low word of the product modulo 2^32; it is the same for signed and unsigned operands. */
  lemma LowProducts(env: Env, m: Machine, raw: Word)
    requires Op(raw) == 0 && Func(raw) in {24, 25} && Shamt(raw) == 2
    ensures var e, a, b := EffectAt(env, m, raw), RsOf(m, raw), RtOf(m, raw);
            && Writes(e, Rd(raw))
            && e.write.v == a * b % 0x1_0000_0000 == Signed(a) * Signed(b) % 0x1_0000_0000
  {
    hide Op, Func, Rs, Rt, Rd, Shamt, Signed;
    RegisterWord(env, m, raw);
    MulMeaning(RsOf(m, raw), RtOf(m, raw));
  }

  /** MUH writes what is missing to the exact signed product, MUHU to the unsigned one. */
  lemma HighProducts(env: Env, m: Machine, raw: Word)
    requires Op(raw) == 0 && Func(raw) in {24, 25} && Shamt(raw) != 2
    ensures var e, a, b := EffectAt(env, m, raw), RsOf(m, raw), RtOf(m, raw);
            && Writes(e, Rd(raw))
            && (Func(raw) == 24 ==>
                 Signed(e.write.v) * 0x1_0000_0000 + a * b % 0x1_0000_0000 == Signed(a) * Signed(b))
            && (Func(raw) == 25 ==> e.write.v * 0x1_0000_0000 + a * b % 0x1_0000_0000 == a * b)
  {
    hide Op, Func, Rs, Rt, Rd, Shamt, Signed, HighSigned, HighUnsigned;
    RegisterWord(env, m, raw);
    ProductsReassemble(RsOf(m, raw), RtOf(m, raw));
  }

  // ---- DIV, MOD, DIVU, MODU ----

  /** r is what truncating division of a by b leaves. */
  predicate IsTruncatedRest(a: int, b: int, r: int) {
    (if b < 0 then b < r < -b else -b < r < b) && (r > 0 ==> a > 0) && (r < 0 ==> a < 0)
  }

  predicate IsMultiple(x: int, b: int) {
    b != 0 && x % (if b < 0 then -b else b) == 0
  }

  lemma SignedOperands(a: Word, b: Word)
    ensures Signed(b) == 0 <==> b == 0
    ensures DivideOverflows(a, b) <==> Signed(a) == -0x8000_0000 && Signed(b) == -1
  {}

  lemma Divides(host: Host, a: Word, b: Word)
    requires b != 0
    ensures var q, r, x, y := Quotient(host, a, b), Remainder(host, a, b), Signed(a), Signed(b);
            if DivideOverflows(a, b) then q == host.quotient && r == host.remainder
            else IsTruncatedRest(x, y, x - Signed(q) * y)
                 && IsTruncatedRest(x, y, Signed(r)) && IsMultiple(x - Signed(r), y)
  {
    hide Signed, TruncDiv, TruncMod, Wrap;
    SignedOperands(a, b);
    if !DivideOverflows(a, b) {
      DivisionLaw(host, a, b);
      var q, y := Signed(Quotient(host, a, b)), Signed(b);
      DivUnique(Signed(a) - Signed(Remainder(host, a, b)), if y < 0 then -y else y, if y > 0 then q else -q, 0);
    }
  }

  /** With no division by zero and no overflow, DIV writes the quotient whose rest is the truncated one, and MOD
      writes that rest. */
  lemma SignedDivisions(env: Env, m: Machine, raw: Word)
    requires Op(raw) == 0 && Func(raw) == 26
    ensures var e, a, b := EffectAt(env, m, raw), Signed(RsOf(m, raw)), Signed(RtOf(m, raw));
            && (b == 0 ==> e == Fail)
            && (b != 0 ==> Writes(e, Rd(raw)))
            && (b != 0 && !(a == -0x8000_0000 && b == -1) ==>
                 if Shamt(raw) == 2 then IsTruncatedRest(a, b, a - Signed(e.write.v) * b)
                 else IsTruncatedRest(a, b, Signed(e.write.v)) && IsMultiple(a - Signed(e.write.v), b))
            && (a == -0x8000_0000 && b == -1 ==>
                 e.write.v == if Shamt(raw) == 2 then env.host.quotient else env.host.remainder)
  {
    hide Op, Func, Rs, Rt, Rd, Shamt, Quotient, Remainder, Signed, IsTruncatedRest, IsMultiple;
    RegisterWord(env, m, raw);
    var a, b := RsOf(m, raw), RtOf(m, raw);
    SignedOperands(a, b);
    if b != 0 { Divides(env.host, a, b); }
  }

  lemma UnsignedDivisions(env: Env, m: Machine, raw: Word)
    requires Op(raw) == 0 && Func(raw) == 27
    ensures var e, a, b := EffectAt(env, m, raw), RsOf(m, raw), RtOf(m, raw);
            && (b == 0 ==> e == Fail)
            && (b != 0 ==> Writes(e, Rd(raw)))
            && (b != 0 ==> if Shamt(raw) == 2 then 0 <= a - e.write.v * b < b
                           else e.write.v < b && (a - e.write.v) % b == 0)
  {
    hide Op, Func, Rs, Rt, Rd, Shamt, QuotientUnsigned, RemainderUnsigned;
    RegisterWord(env, m, raw);
    if RtOf(m, raw) != 0 {
      var a, b := RsOf(m, raw), RtOf(m, raw);
      UnsignedDivisionLaw(a, b);
      DivUnique(a - RemainderUnsigned(a, b), b, QuotientUnsigned(a, b), 0);
    }
  }

  // ---- AND, OR, XOR, NOR ----

  lemma BitOfXor(x: Word, y: Word, i: nat)
    requires i < 32
    ensures Bit(Xor(x, y), i) == (Bit(x, i) != Bit(y, i))
  {
    BitOfGate(XOR, 32, x, y, i);
  }

  lemma BitwiseWords(env: Env, m: Machine, raw: Word, i: nat)
    requires Op(raw) == 0 && 36 <= Func(raw) <= 39 && i < 32
    ensures var e, a, b := EffectAt(env, m, raw), Bit(RsOf(m, raw), i), Bit(RtOf(m, raw), i);
            && Writes(e, Rd(raw))
            && (Bit(e.write.v, i) <==> match Func(raw)
                                       case 36 => a && b
                                       case 37 => a || b
                                       case 38 => a != b
                                       case _ => !(a || b))
  {
    hide Op, Func, Rs, Rt, Rd, Shamt, Bit, And, Or, Xor, Not;
    RegisterWord(env, m, raw);
    var a, b := RsOf(m, raw), RtOf(m, raw);
    BitOfAnd(a, b, i);
    BitOfOr(a, b, i);
    BitOfXor(a, b, i);
    BitOfNot(Or(a, b), i);
  }

  // ---- SLT, SLTU, SELEQZ, SELNEZ ----

  lemma Selections(env: Env, m: Machine, raw: Word)
    requires Op(raw) == 0 && Func(raw) in {42, 43, 53, 55}
    ensures var a, b := RsOf(m, raw), RtOf(m, raw);
            EffectAt(env, m, raw) == Set(Rd(raw), match Func(raw)
                                                  case 42 => if Signed(a) < Signed(b) then 1 else 0
                                                  case 43 => if a < b then 1 else 0
                                                  case 53 => if b == 0 then a else 0
                                                  case _ => if b != 0 then a else 0)
  {
    hide Op, Func, Rs, Rt, Rd, Shamt, Signed;
    RegisterWord(env, m, raw);
  }

  // ---- CLZ, CLO ----

  /** The top n bits of x have this value, and the next one, if any, does not. */
  predicate LeadingRun(x: Word, n: nat, bit: bool) {
    n <= 32 && (forall i :: 32 - n <= i < 32 ==> Bit(x, i) == bit) && (n < 32 ==> Bit(x, 31 - n) != bit)
  }

  lemma LeadingZerosRun(x: Word)
    ensures LeadingZeros(x) <= 32 && LeadingRun(x, LeadingZeros(x), false)
  {
    hide Bit, Pow2, LeadingZeros;
    LeadingZerosBound(x);
    var n := LeadingZeros(x);
    LeadingBits(x, n);
    forall i | 32 - n <= i < 32
      ensures !Bit(x, i)
    {
      BitAbove(x, 32 - n, i);
    }
    if n < 32 { TopBitOf(x, 31 - n); }
  }

  lemma LeadingZerosBound(x: Word)
    ensures LeadingZeros(x) <= 32
  {}

  lemma LeadingOnesRun(x: Word)
    ensures LeadingZeros(Not(x)) <= 32 && LeadingRun(x, LeadingZeros(Not(x)), true)
  {
    hide Bit, Pow2, LeadingZeros;
    LeadingZerosBound(Not(x));
    LeadingBits(x, LeadingZeros(Not(x)));
  }

  lemma LeadingCounts(env: Env, m: Machine, raw: Word)
    requires Op(raw) == 0 && (Func(raw) == 16 || Func(raw) == 11)
    ensures var e := EffectAt(env, m, raw);
            Writes(e, Rd(raw)) && LeadingRun(RsOf(m, raw), e.write.v, Func(raw) == 11)
  {
    hide Op, Func, Rs, Rt, Rd, Shamt, LeadingRun, LeadingZeros, Not;
    RegisterWord(env, m, raw);
    LeadingZerosRun(RsOf(m, raw));
    LeadingOnesRun(RsOf(m, raw));
  }

  // ---- Shifts ----

  /** The amount: a field for SLL, SRL, ROTR and SRA, the low five bits of rs for the V forms. */
  function ShiftAmount(m: Machine, raw: Word): nat {
    if Func(raw) < 4 then Shamt(raw) else RsOf(m, raw) % 32
  }

  /** Bit 0 of the field the immediate or variable form leaves free tells the rotations from SRL and SRLV. */
  predicate Rotates(raw: Word) {
    (Func(raw) == 2 && Rs(raw) % 2 == 1) || (Func(raw) == 6 && Shamt(raw) % 2 == 1)
  }

  lemma ShiftWord(env: Env, m: Machine, raw: Word)
    requires Op(raw) == 0 && Func(raw) in {0, 2, 3, 4, 6, 7}
    ensures var op := if Func(raw) % 4 == 0 then Sll else if Func(raw) % 4 == 3 then Sra
                      else if Rotates(raw) then Rotr else Srl;
            EffectAt(env, m, raw) == Set(Rd(raw), ShiftValue(env.host, op, RtOf(m, raw), ShiftAmount(m, raw)))
  {
    hide Op, Func, Rs, Rt, Rd, Shamt, ShiftValue;
    RegisterWord(env, m, raw);
  }

  /** SLL and SLLV move bits up and fill with zeros. */
  lemma LeftShifts(env: Env, m: Machine, raw: Word, i: nat)
    requires Op(raw) == 0 && (Func(raw) == 0 || Func(raw) == 4) && i < 32
    ensures var e, s := EffectAt(env, m, raw), ShiftAmount(m, raw);
            && Writes(e, Rd(raw))
            && (Bit(e.write.v, i) <==> s <= i && Bit(RtOf(m, raw), i - s))
  {
    hide Op, Func, Rs, Rt, Rd, Shamt, Bit, EffectAt, Lift, Wrap;
    ShiftWord(env, m, raw);
    BitOfShl(RtOf(m, raw), ShiftAmount(m, raw), i);
  }

  /** SRL and SRLV move bits down and fill with zeros; ROTR and ROTRV by a non-zero amount bring them back in at
      the top, and by 0 OR the operand with the host's word. */
  lemma RightShifts(env: Env, m: Machine, raw: Word, i: nat)
    requires Op(raw) == 0 && (Func(raw) == 2 || Func(raw) == 6) && i < 32
    ensures var e, s, x := EffectAt(env, m, raw), ShiftAmount(m, raw), RtOf(m, raw);
            && Writes(e, Rd(raw))
            && (Bit(e.write.v, i) <==>
                 if !Rotates(raw) then i + s < 32 && Bit(x, i + s)
                 else if s > 0 then Bit(x, (i + s) % 32)
                 else Bit(x, i) || Bit(env.host.shl32(x), i))
  {
    hide Op, Func, Rs, Rt, Rd, Shamt, Bit, EffectAt, Drop, Or, RotateRight, Rotates;
    ShiftWord(env, m, raw);
    var s, x := ShiftAmount(m, raw), RtOf(m, raw);
    BitOfDrop(x, s, i);
    if i + s >= 32 { WordBitAbove(x, i + s); }
    RotateRightAt(x, s, i);
    BitOfOr(x, env.host.shl32(x), i);
  }

  lemma WordBitAbove(x: Word, i: nat)
    requires i >= 32
    ensures !Bit(x, i)
  {
    Pow2At32();
    BitAbove(x, 32, i);
  }

  /** SRA and SRAV by a non-zero amount divide the signed number by 2^s, rounding down; by 0 they keep what is
      not negative, and OR a negative word with the host's. */
  lemma ArithmeticShifts(env: Env, m: Machine, raw: Word)
    requires Op(raw) == 0 && (Func(raw) == 3 || Func(raw) == 7)
    ensures var e, s, x := EffectAt(env, m, raw), ShiftAmount(m, raw), RtOf(m, raw);
            && Writes(e, Rd(raw))
            && (s > 0 ==> Signed(e.write.v) * Pow2(s) <= Signed(x) < (Signed(e.write.v) + 1) * Pow2(s))
            && (s == 0 && x < 0x8000_0000 ==> e.write.v == x)
            && (s == 0 && x >= 0x8000_0000 ==>
                 forall i :: 0 <= i < 32 ==>
                   (Bit(e.write.v, i) <==> Bit(env.host.shl32(ALL_ONES), i) || Bit(x, i)))
  {
    hide Op, Func, Rs, Rt, Rd, Shamt, Bit, EffectAt, Or, ArithmeticShift, Pow2;
    ShiftWord(env, m, raw);
    var s, x := ShiftAmount(m, raw), RtOf(m, raw);
    ArithmeticShiftLaws(x, s, 0);
    FloorBounds(Signed(x), Pow2(s));
    forall i | 0 <= i < 32
      ensures Bit(Or(env.host.shl32(ALL_ONES), x), i) <==> Bit(env.host.shl32(ALL_ONES), i) || Bit(x, i)
    {
      BitOfOr(env.host.shl32(ALL_ONES), x, i);
    }
  }

  lemma FloorBounds(x: int, p: nat)
    requires p > 0
    ensures x / p * p <= x < (x / p + 1) * p
  {
    assert x == x / p * p + x % p;
  }

  // ---- Traps and register jumps ----

  /** TGE, TGEU, TLT, TLTU, TEQ, TNE. */
  lemma Traps(env: Env, m: Machine, raw: Word)
    requires Op(raw) == 0 && Func(raw) in {48, 49, 50, 51, 52, 54}
    ensures var a, b := RsOf(m, raw), RtOf(m, raw);
            EffectAt(env, m, raw) == if (match Func(raw)
                                         case 48 => Signed(a) >= Signed(b)
                                         case 49 => a >= b
                                         case 50 => Signed(a) < Signed(b)
                                         case 51 => a < b
                                         case 52 => a == b
                                         case _ => a != b) then Trap else NOTHING
  {
    hide Op, Func, Rs, Rt, Rd, Shamt, Signed;
    RegisterWord(env, m, raw);
  }

  /** JR and JALR. */
  lemma RegisterJumps(env: Env, m: Machine, raw: Word)
    requires Op(raw) == 0 && (Func(raw) == 8 || Func(raw) == 9)
    ensures EffectAt(env, m, raw)
         == Done(if Func(raw) == 8 then NoWrite else To(31, NextPc(m.regs)), After(RsOf(m, raw)))
  {
    hide Op, Func, Rs, Rt, Rd, Shamt;
    RegisterWord(env, m, raw);
  }

  // ---- Immediates ----

  lemma ImmediateWord(env: Env, m: Machine, raw: Word)
    requires 9 <= Op(raw) <= 15
    ensures EffectAt(env, m, raw) == Attempt(env.host, DisassembleImmediate(raw), m.regs.gpr, NextPc(m.regs))
  {
    hide Op, Rs, Rt, Imm16, Compute;
  }

  /** ADDIU adds the signed immediate, AUI the immediate times 2^16. */
  lemma ImmediateSums(env: Env, m: Machine, raw: Word)
    requires Op(raw) == 9 || Op(raw) == 15
    ensures EffectAt(env, m, raw) == Set(Rt(raw), (RsOf(m, raw)
              + (if Op(raw) == 9 then SignedImm(raw) else 0x1_0000 * Imm16(raw))) % 0x1_0000_0000)
  {
    hide Op, Rs, Rt, Imm16, SignedImm, SignedField;
    ImmediateWord(env, m, raw);
    SignedImmediates(raw);
  }

  /** SLTI compares with the signed immediate, SLTIU with the word it sign-extends to. */
  lemma ImmediateComparisons(env: Env, m: Machine, raw: Word)
    requires Op(raw) == 10 || Op(raw) == 11
    ensures var a := RsOf(m, raw);
            EffectAt(env, m, raw) == Set(Rt(raw),
              if (if Op(raw) == 10 then Signed(a) < SignedImm(raw) else a < SignedImm(raw) % 0x1_0000_0000)
              then 1 else 0)
  {
    hide Op, Rs, Rt, Imm16, SignedImm, SignedField, Signed;
    ImmediateWord(env, m, raw);
    SignedImmediates(raw);
  }

  /** ANDI, ORI, XORI: the immediate has zeros above bit 15. */
  lemma ImmediateBits(env: Env, m: Machine, raw: Word, i: nat)
    requires 12 <= Op(raw) <= 14 && i < 32
    ensures var e, a, b := EffectAt(env, m, raw), Bit(RsOf(m, raw), i), i < 16 && Bit(Imm16(raw), i);
            && Writes(e, Rt(raw))
            && (Bit(e.write.v, i) <==> match Op(raw)
                                       case 12 => a && b
                                       case 13 => a || b
                                       case _ => a != b)
  {
    hide Op, Rs, Rt, Imm16, Bit, And, Or, Xor;
    ImmediateWord(env, m, raw);
    var a, imm := RsOf(m, raw), Imm16(raw);
    BitOfAnd(a, imm, i);
    BitOfOr(a, imm, i);
    BitOfXor(a, imm, i);
    if i >= 16 { HalfwordBitAbove(imm, i); }
  }

  lemma HalfwordBitAbove(x: Bits16, i: nat)
    requires i >= 16
    ensures !Bit(x, i)
  {
    Pow2Table();
    BitAbove(x, 16, i);
  }

  // ---- Conditional branches ----

  function Target(m: Machine, raw: Word): Word {
    Wrap(NextPc(m.regs) + 4 * SignedImm(raw))
  }

  function DelayedIf(taken: bool, target: Word): Effect {
    if taken then Done(NoWrite, After(target)) else NOTHING
  }

  function AtOnceIf(taken: bool, target: Word): Effect {
    if taken then Done(NoWrite, Now(target)) else NOTHING
  }

  function LinkedIf(taken: bool, target: Word, m: Machine): Effect {
    if taken then Done(To(31, NextPc(m.regs)), Now(target)) else NOTHING
  }

  lemma BranchWord(env: Env, m: Machine, raw: Word)
    requires 4 <= Op(raw) <= 8 || 22 <= Op(raw) <= 24
    ensures EffectAt(env, m, raw) == Attempt(env.host, DisassembleIType(raw), m.regs.gpr, NextPc(m.regs))
    ensures SignedImm(raw) == Offset16(raw)
  {
    hide Op, Rs, Rt, Imm16, Compute, SignedImm, Offset16;
    SignedImmediates(raw);
  }

  /** BEQ, BNE. */
  lemma EqualityBranches(env: Env, m: Machine, raw: Word)
    requires Op(raw) == 4 || Op(raw) == 5
    ensures EffectAt(env, m, raw) == DelayedIf((RsOf(m, raw) == RtOf(m, raw)) == (Op(raw) == 4), Target(m, raw))
  {
    hide Op, Rs, Rt, Imm16, SignedImm, Offset16, Wrap, NextPc;
    BranchWord(env, m, raw);
  }

  /** BLEZ, BLEZALC, BGEZALC, BGEUC. */
  lemma Pop06Branches(env: Env, m: Machine, raw: Word)
    requires Op(raw) == 6 && m.regs.gpr[0] == 0
    ensures var a, b, t := RsOf(m, raw), RtOf(m, raw), Target(m, raw);
            EffectAt(env, m, raw) == if Rt(raw) == 0 then DelayedIf(Signed(a) <= 0, t)
                                     else if Rs(raw) == 0 then LinkedIf(Signed(b) <= 0, t, m)
                                     else if Rs(raw) == Rt(raw) then LinkedIf(Signed(b) >= 0, t, m)
                                     else AtOnceIf(a >= b, t)
  {
    hide Op, Rs, Rt, Imm16, SignedImm, Offset16, Wrap, NextPc;
    BranchWord(env, m, raw);
  }

  /** BGTZ, BGTZALC, BLTZALC, BLTUC. */
  lemma Pop07Branches(env: Env, m: Machine, raw: Word)
    requires Op(raw) == 7 && m.regs.gpr[0] == 0
    ensures var a, b, t := RsOf(m, raw), RtOf(m, raw), Target(m, raw);
            EffectAt(env, m, raw) == if Rt(raw) == 0 then DelayedIf(Signed(a) > 0, t)
                                     else if Rs(raw) == 0 then LinkedIf(Signed(b) > 0, t, m)
                                     else if Rs(raw) == Rt(raw) then LinkedIf(Signed(b) < 0, t, m)
                                     else AtOnceIf(a < b, t)
  {
    hide Op, Rs, Rt, Imm16, SignedImm, Offset16, Wrap, NextPc;
    BranchWord(env, m, raw);
  }

  /** The flag of BOVC and BNVC: operands of different sign, or a sum outside the 32-bit range. */
  predicate Flagged(a: int, b: int) {
    (a < 0) != (b < 0) || a + b < -0x8000_0000 || a + b > 0x7FFF_FFFF
  }

  /** BOVC, BEQZALC, BEQC, and with opcode 24 BNVC, BNEZALC, BNEC. */
  lemma EqualOrOverflowBranches(env: Env, m: Machine, raw: Word)
    requires (Op(raw) == 8 || Op(raw) == 24) && m.regs.gpr[0] == 0
    ensures var a, b, t, positive := RsOf(m, raw), RtOf(m, raw), Target(m, raw), Op(raw) == 8;
            EffectAt(env, m, raw) == if Rs(raw) >= Rt(raw) then AtOnceIf(Flagged(Signed(a), Signed(b)) == positive, t)
                                     else if Rs(raw) == 0 then LinkedIf((b == 0) == positive, t, m)
                                     else AtOnceIf((a == b) == positive, t)
  {
    hide Op, Rs, Rt, Imm16, SignedImm, Offset16, Wrap, NextPc, Signed;
    BranchWord(env, m, raw);
  }

  /** BLEZC, BGEZC, BGEC; nothing with rt = 0. */
  lemma Pop26Branches(env: Env, m: Machine, raw: Word)
    requires Op(raw) == 22 && m.regs.gpr[0] == 0
    ensures var a, b, t := RsOf(m, raw), RtOf(m, raw), Target(m, raw);
            EffectAt(env, m, raw) == if Rt(raw) == 0 then NOTHING
                                     else if Rs(raw) == 0 then AtOnceIf(Signed(b) <= 0, t)
                                     else if Rs(raw) == Rt(raw) then AtOnceIf(Signed(b) >= 0, t)
                                     else AtOnceIf(Signed(a) >= Signed(b), t)
  {
    hide Op, Rs, Rt, Imm16, SignedImm, Offset16, Wrap, NextPc;
    BranchWord(env, m, raw);
  }

  /** BGTZC, BLTZC, BLTC; nothing with rt = 0. */
  lemma Pop27Branches(env: Env, m: Machine, raw: Word)
    requires Op(raw) == 23 && m.regs.gpr[0] == 0
    ensures var a, b, t := RsOf(m, raw), RtOf(m, raw), Target(m, raw);
            EffectAt(env, m, raw) == if Rt(raw) == 0 then NOTHING
                                     else if Rs(raw) == 0 then AtOnceIf(Signed(b) > 0, t)
                                     else if Rs(raw) == Rt(raw) then AtOnceIf(Signed(b) < 0, t)
                                     else AtOnceIf(Signed(a) < Signed(b), t)
  {
    hide Op, Rs, Rt, Imm16, SignedImm, Offset16, Wrap, NextPc;
    BranchWord(env, m, raw);
  }

  /** BEQZC and BNEZC, with 21 bits of offset; JIC and JIALC, which reads its base after the link. */
  lemma Pop66And76(env: Env, m: Machine, raw: Word)
    requires (Op(raw) == 54 || Op(raw) == 62) && m.regs.gpr[0] == 0
    ensures var a, b, pc, link := RsOf(m, raw), RtOf(m, raw), NextPc(m.regs), Op(raw) == 62;
            EffectAt(env, m, raw)
            == if Rs(raw) != 0 then AtOnceIf((a == 0) != link, Wrap(pc + 4 * SignedLong(raw)))
               else if !link then Done(NoWrite, Now(Wrap(b + SignedImm(raw))))
               else Done(To(31, pc), Now(Wrap((if Rt(raw) == 31 then pc else b) + SignedImm(raw))))
  {
    hide Op, Rs, Rt, Imm16, Imm21, Imm26, SignedImm, SignedLong, SignedJump, SignedField, Wrap, NextPc;
    SignedImmediates(raw);
  }

  /** BGEZ, BLTZ. */
  lemma RegimmBranches(env: Env, m: Machine, raw: Word)
    requires Op(raw) == 1 && Rt(raw) <= 1 && m.regs.gpr[0] == 0
    ensures EffectAt(env, m, raw) == DelayedIf((Signed(RsOf(m, raw)) >= 0) == (Rt(raw) == 1), Target(m, raw))
  {
    hide Op, Rs, Rt, Imm16, Imm21, Imm26, SignedImm, SignedLong, SignedJump, SignedField, Wrap, NextPc;
    SignedImmediates(raw);
  }

  /** J, JAL, BC, BALC. */
  lemma LongJumps(env: Env, m: Machine, raw: Word)
    requires Op(raw) in {2, 3, 50, 58}
    ensures var pc := NextPc(m.regs);
            var write := if Op(raw) == 3 || Op(raw) == 58 then To(31, pc) else NoWrite;
            EffectAt(env, m, raw)
            == Done(write, if Op(raw) <= 3 then After(Wrap(pc - pc % 0x1000_0000 + 4 * Imm26(raw)))
                           else Now(Wrap(pc + 4 * SignedJump(raw))))
  {
    hide Op, Imm16, Imm21, Imm26, SignedImm, SignedLong, SignedJump, SignedField, Wrap, NextPc;
    SignedImmediates(raw);
  }

  // ---- Loads and stores ----

  /** Where the access goes in the buffer. */
  function Accessed(env: Env, m: Machine, raw: Word, width: nat): Result<nat> {
    Locate(env.bus, |m.mem|, Wrap(RsOf(m, raw) + SignedImm(raw)), width)
  }

  lemma MemoryWord(env: Env, m: Machine, raw: Word)
    requires Op(raw) in {32, 33, 35, 36, 37, 40, 41, 43}
    ensures DisassembleLoadStore(raw).Some?
    ensures EffectAt(env, m, raw)
         == Meaning(env, DisassembleLoadStore(raw).value, m.regs.gpr, NextPc(m.regs), m.mem)
    ensures SignedImm(raw) == Offset16(raw)
  {
    hide Op, Rs, Rt, Imm16, Meaning, SignedImm, Offset16;
    SignedImmediates(raw);
  }

  lemma LoadedBySize(v: Word)
    ensures LoadedValue(v, 1, false) == v && LoadedValue(v, 2, false) == v && LoadedValue(v, 4, true) == v
    ensures v < 0x100 ==> LoadedValue(v, 1, true) == if v < 0x80 then v else v + 0xFFFF_FF00
    ensures v < 0x1_0000 ==> LoadedValue(v, 2, true) == if v < 0x8000 then v else v + 0xFFFF_0000
  {
    Pow2Table();
  }

  /** LB sign-extends one byte, LBU zero-extends it. */
  lemma ByteLoads(env: Env, m: Machine, raw: Word)
    requires Op(raw) == 32 || Op(raw) == 36
    ensures match Accessed(env, m, raw, 1)
            case Err(_) => EffectAt(env, m, raw) == Fail
            case Ok(i) =>
              var b: int := m.mem[i];
              EffectAt(env, m, raw) == Set(Rt(raw), if Op(raw) == 36 || b < 0x80 then b else b + 0xFFFF_FF00)
  {
    hide Op, Rs, Rt, Imm16, SignedImm, Offset16, EffectAt, Locate, LittleEndian, LoadedValue;
    MemoryWord(env, m, raw);
    match Accessed(env, m, raw, 1)
    case Err(_) =>
    case Ok(i) =>
      LoadedBySize(m.mem[i]);
      LittleEndianStep(m.mem, i, 1);
      NoBytes(m.mem[i + 1..i + 1]);
  }

  /** LH sign-extends two bytes, the lower address being the less significant, LHU zero-extends them. */
  lemma HalfwordLoads(env: Env, m: Machine, raw: Word)
    requires Op(raw) == 33 || Op(raw) == 37
    ensures match Accessed(env, m, raw, 2)
            case Err(_) => EffectAt(env, m, raw) == Fail
            case Ok(i) =>
              var h := HalfwordAt(m.mem, i);
              EffectAt(env, m, raw) == Set(Rt(raw), if Op(raw) == 37 || h < 0x8000 then h else h + 0xFFFF_0000)
  {
    hide Op, Rs, Rt, Imm16, SignedImm, Offset16, EffectAt, Locate, LittleEndian, HalfwordAt, LoadedValue;
    MemoryWord(env, m, raw);
    match Accessed(env, m, raw, 2)
    case Err(_) =>
    case Ok(i) =>
      HalfwordAtIsLittleEndian(m.mem, i);
      LoadedBySize(HalfwordAt(m.mem, i));
  }

  /** LW reads four bytes, the lowest address being the least significant. */
  lemma WordLoads(env: Env, m: Machine, raw: Word)
    requires Op(raw) == 35
    ensures match Accessed(env, m, raw, 4)
            case Err(_) => EffectAt(env, m, raw) == Fail
            case Ok(i) => EffectAt(env, m, raw) == Set(Rt(raw), WordAt(m.mem, i))
  {
    hide Op, Rs, Rt, Imm16, SignedImm, Offset16, EffectAt, Locate, LittleEndian, WordAt, LoadedValue;
    MemoryWord(env, m, raw);
    match Accessed(env, m, raw, 4)
    case Err(_) =>
    case Ok(i) =>
      WordAtIsLittleEndian(m.mem, i);
      LoadedBySize(WordAt(m.mem, i));
  }

  function WordAt(mem: seq<Byte>, i: nat): Word
    requires i + 4 <= |mem|
  {
    var b0: int, b1: int, b2: int, b3: int := mem[i], mem[i + 1], mem[i + 2], mem[i + 3];
    b0 + 0x100 * b1 + 0x1_0000 * b2 + 0x100_0000 * b3
  }

  function HalfwordAt(mem: seq<Byte>, i: nat): Bits16
    requires i + 2 <= |mem|
  {
    var b0: int, b1: int := mem[i], mem[i + 1];
    b0 + 0x100 * b1
  }

  lemma LittleEndianStep(mem: seq<Byte>, i: nat, n: nat)
    requires 0 < n && i + n <= |mem|
    ensures LittleEndian(mem[i..i + n]) == mem[i] + 0x100 * LittleEndian(mem[i + 1..i + n])
  {
    assert mem[i..i + n][1..] == mem[i + 1..i + n];
  }

  lemma HalfwordAtIsLittleEndian(mem: seq<Byte>, i: nat)
    requires i + 2 <= |mem|
    ensures LittleEndian(mem[i..i + 2]) == HalfwordAt(mem, i)
  {
    hide LittleEndian;
    LittleEndianStep(mem, i, 2);
    LittleEndianStep(mem, i + 1, 1);
    NoBytes(mem[i + 2..i + 2]);
  }

  lemma WordAtIsLittleEndian(mem: seq<Byte>, i: nat)
    requires i + 4 <= |mem|
    ensures LittleEndian(mem[i..i + 4]) == WordAt(mem, i)
  {
    hide LittleEndian;
    LittleEndianStep(mem, i, 4);
    LittleEndianStep(mem, i + 1, 3);
    HalfwordAtIsLittleEndian(mem, i + 2);
  }

  lemma NoBytes(b: seq<Byte>)
    requires |b| == 0
    ensures LittleEndian(b) == 0
  {}

  /** SB, SH and SW store the low one, two or four bytes of rt, the least significant first. */
  lemma Stores(env: Env, m: Machine, raw: Word)
    requires Op(raw) in {40, 41, 43}
    ensures var v := RtOf(m, raw);
            var bytes: seq<Byte> :=
              match Op(raw)
              case 40 => [v % 0x100]
              case 41 => [v % 0x100, v / 0x100 % 0x100]
              case _ => [v % 0x100, v / 0x100 % 0x100, v / 0x1_0000 % 0x100, v / 0x100_0000];
            EffectAt(env, m, raw) == match Accessed(env, m, raw, |bytes|)
                                     case Err(_) => Fail
                                     case Ok(i) => Stored(i, bytes)
  {
    hide Op, Rs, Rt, Imm16, SignedImm, Offset16, EffectAt, Locate, Bytes;
    MemoryWord(env, m, raw);
    BytesOf(RtOf(m, raw));
  }

  lemma BytesStep(v: nat, n: nat)
    ensures Bytes(v, 0) == [] && Bytes(v, n + 1) == [v % 0x100] + Bytes(v / 0x100, n)
  {}

  lemma TwoBytes(v: nat)
    ensures Bytes(v, 1) == [v % 0x100] && Bytes(v, 2) == [v % 0x100, v / 0x100 % 0x100]
  {
    hide Bytes;
    BytesStep(v, 0);
    BytesStep(v, 1);
    BytesStep(v / 0x100, 0);
  }

  lemma FourBytesOf(v: nat, d: nat, e: nat, f: nat)
    requires d == v / 0x100 && e == d / 0x100 && f == e / 0x100
    ensures Bytes(v, 4) == [v % 0x100, d % 0x100, e % 0x100, f % 0x100]
  {
    hide Bytes;
    BytesStep(v, 3);
    BytesStep(d, 2);
    TwoBytes(e);
  }

  lemma BytesOf(v: Word)
    ensures Bytes(v, 1) == [v % 0x100] && Bytes(v, 2) == [v % 0x100, v / 0x100 % 0x100]
    ensures Bytes(v, 4) == [v % 0x100, v / 0x100 % 0x100, v / 0x1_0000 % 0x100, v / 0x100_0000]
  {
    hide Bytes;
    TwoBytes(v);
    DivDiv(v, 0x100, 0x100);
    DivDiv(v, 0x1_0000, 0x100);
    FourBytesOf(v, v / 0x100, v / 0x1_0000, v / 0x100_0000);
  }

  // ---- BITSWAP, WSBH, ALIGN, SEB, SEH ----

  lemma SpecialWord(env: Env, m: Machine, raw: Word)
    requires Op(raw) == 31 && Func(raw) == 32
    ensures EffectAt(env, m, raw) == Attempt(env.host, DisassembleBshfl(raw), m.regs.gpr, NextPc(m.regs))
  {
    hide Op, Func, Rs, Rt, Rd, Shamt, Compute;
  }

  /** BITSWAP mirrors every byte, WSBH exchanges the bytes of every halfword. */
  lemma Swaps(env: Env, m: Machine, raw: Word, i: nat)
    requires Op(raw) == 31 && Func(raw) == 32 && (Shamt(raw) == 0 || Shamt(raw) == 2) && i < 32
    ensures var e := EffectAt(env, m, raw);
            && Writes(e, Rd(raw))
            && Bit(e.write.v, i) == Bit(RtOf(m, raw), if Shamt(raw) == 0 then 8 * (i / 8) + 7 - i % 8
                                                      else if i / 8 % 2 == 0 then i + 8 else i - 8)
  {
    hide Op, Func, Rs, Rt, Rd, Shamt, Bit, ReverseBytes, SwapHalfwordBytes, EffectAt;
    SpecialWord(env, m, raw);
    ReverseBytesAt(RtOf(m, raw), i);
    SwapHalfwordBytesAt(RtOf(m, raw), i);
  }

  /** ALIGN takes the bytes of rt moved up by bp, and below them the top bytes of rs. */
  lemma Alignment(env: Env, m: Machine, raw: Word, i: nat)
    requires Op(raw) == 31 && Func(raw) == 32 && 8 <= Shamt(raw) <= 11 && i < 32
    ensures var e, s := EffectAt(env, m, raw), 8 * (Shamt(raw) - 8);
            && Writes(e, Rd(raw))
            && Bit(e.write.v, i) == if i < s then Bit(RsOf(m, raw), 32 - s + i) else Bit(RtOf(m, raw), i - s)
  {
    hide Op, Func, Rs, Rt, Rd, Shamt, Bit, AlignShift, EffectAt;
    SpecialWord(env, m, raw);
    AlignAt(RtOf(m, raw), RsOf(m, raw), 8 * (Shamt(raw) - 8), i);
  }

  /** SEB and SEH read the low byte or halfword as a signed number. */
  lemma SignExtensions(env: Env, m: Machine, raw: Word)
    requires Op(raw) == 31 && Func(raw) == 32 && (Shamt(raw) == 16 || Shamt(raw) == 24)
    ensures var e, b, h := EffectAt(env, m, raw), RtOf(m, raw) % 0x100, RtOf(m, raw) % 0x1_0000;
            && Writes(e, Rd(raw))
            && Signed(e.write.v) == if Shamt(raw) == 16 then (if b < 0x80 then b else b - 0x100)
                                    else (if h < 0x8000 then h else h - 0x1_0000)
  {
    hide Op, Func, Rs, Rt, Rd, Shamt, Signed, EffectAt, Keep, Wrap, Pow2;
    SpecialWord(env, m, raw);
    Pow2Table();
    var x := RtOf(m, raw);
    SplitAt(x, 8, 0x100);
    SplitAt(x, 16, 0x1_0000);
    SignedOfWrap(SignedField(x % 0x100, 8));
    SignedOfWrap(SignedField(x % 0x1_0000, 16));
  }

  // ---- EXT, INS ----

  /** EXT moves the msbd + 1 bits at lsb down, and is refused when they do not fit. */
  lemma Extraction(env: Env, m: Machine, raw: Word, i: nat)
    requires Op(raw) == 31 && Func(raw) == 0 && i < 32
    ensures var e, lsb, msbd := EffectAt(env, m, raw), Shamt(raw), Rd(raw);
            if lsb + msbd > 31 then e == Fail
            else Writes(e, Rt(raw)) && (Bit(e.write.v, i) <==> i <= msbd && Bit(RsOf(m, raw), lsb + i))
  {
    hide Op, Func, Rs, Rt, Rd, Shamt, Bit, Keep, Drop;
    var x, lsb, size := RsOf(m, raw), Shamt(raw), Rd(raw) + 1;
    BitOfKeep(Drop(x, lsb), size, i);
    BitOfDrop(x, lsb, i);
  }

  /** INS replaces bits lsb to msb of rt by the low bits of rs, and is refused when lsb is above msb. */
  lemma Insertion(env: Env, m: Machine, raw: Word, i: nat)
    requires Op(raw) == 31 && Func(raw) == 4 && i < 32
    ensures var e, lsb, msb := EffectAt(env, m, raw), Shamt(raw), Rd(raw);
            if lsb > msb then e == Fail
            else Writes(e, Rt(raw))
                 && Bit(e.write.v, i) == if lsb <= i <= msb then Bit(RsOf(m, raw), i - lsb) else Bit(RtOf(m, raw), i)
  {
    hide Op, Func, Rs, Rt, Rd, Shamt, Bit, InsertField;
    var lsb: nat, msb: nat := Shamt(raw), Rd(raw);
    if lsb <= msb { InsertFieldAt(RtOf(m, raw), RsOf(m, raw), lsb, msb - lsb + 1, i); }
  }

  // ---- ADDIUPC, LWPC, AUIPC, ALUIPC ----

  lemma PcRelativeWords(env: Env, m: Machine, raw: Word)
    requires Op(raw) == 59 && (PcFunc1(raw) <= 1 || Rt(raw) >= 30)
    ensures var pc, e := NextPc(m.regs), EffectAt(env, m, raw);
            if PcFunc1(raw) == 0 then e == Set(Rs(raw), Wrap(pc + 4 * Imm19(raw)))
            else if PcFunc1(raw) == 1 then
              (match Locate(env.bus, |m.mem|, Wrap(pc + 4 * Imm19(raw)), 4)
               case Err(_) => e == Fail
               case Ok(i) => e == Set(Rs(raw), WordAt(m.mem, i)))
            else if Rt(raw) == 30 then e == Set(Rs(raw), Wrap(pc + 0x1_0000 * Imm16(raw)))
            else Writes(e, Rs(raw)) && 0 <= Wrap(pc + 0x1_0000 * Imm16(raw)) - e.write.v < 0x1_0000
                 && e.write.v % 0x1_0000 == 0
  {
    hide Op, Rs, Rt, Imm16, Imm19, PcFunc1, Wrap, Locate, LittleEndian, WordAt, NextPc;
    PcRelFunctions(raw);
    var addr := Wrap(NextPc(m.regs) + 4 * Imm19(raw));
    match Locate(env.bus, |m.mem|, addr, 4)
    case Err(_) =>
    case Ok(i) => WordAtIsLittleEndian(m.mem, i);
  }
}

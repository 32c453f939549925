/** Branch conditions and control-transfer targets. */
module Branches {
  import opened Words
  import opened Instructions
  import opened Isa
  import opened BitTricks
  import opened Runs

  // ---- Opposite branches ----

  predicate OppositeOpcodes(op: int, op': int) {
    (op, op') in {(4, 5), (6, 7), (8, 24), (22, 23), (54, 62), (5, 4), (7, 6), (24, 8), (23, 22), (62, 54)}
  }

  lemma LowRs(raw: Word)
    ensures Rs(raw) == Imm26(raw) / 0x20_0000
  {
    var h, lo := raw / 0x400_0000, raw % 0x400_0000;
    DivUnique(raw, 0x20_0000, h * 0x20 + lo / 0x20_0000, lo % 0x20_0000);
    DivUnique(h * 0x20 + lo / 0x20_0000, 0x20, h, lo / 0x20_0000);
  }

  lemma LowRt(raw: Word)
    ensures Rt(raw) == Imm26(raw) / 0x1_0000 % 0x20
  {
    var h, lo := raw / 0x400_0000, raw % 0x400_0000;
    var mid := lo / 0x1_0000;
    DivUnique(raw, 0x1_0000, h * 0x400 + mid, lo % 0x1_0000);
    DivUnique(h * 0x400 + mid, 0x20, h * 0x20 + mid / 0x20, mid % 0x20);
  }

  lemma LowImmediates(raw: Word)
    ensures Imm16(raw) == Imm26(raw) % 0x1_0000 && Imm21(raw) == Imm26(raw) % 0x20_0000
  {
    var h, lo := raw / 0x400_0000, raw % 0x400_0000;
    DivUnique(raw, 0x1_0000, h * 0x400 + lo / 0x1_0000, lo % 0x1_0000);
    DivUnique(raw, 0x20_0000, h * 0x20 + lo / 0x20_0000, lo % 0x20_0000);
  }

  lemma SharedFields(raw: Word, raw': Word)
    requires Imm26(raw) == Imm26(raw')
    ensures Rs(raw) == Rs(raw') && Rt(raw) == Rt(raw') && Imm16(raw) == Imm16(raw') && Imm21(raw) == Imm21(raw')
  {
    hide Rs, Rt, Imm16, Imm21, Imm26;
    LowRs(raw);
    LowRs(raw');
    LowRt(raw);
    LowRt(raw');
    LowImmediates(raw);
    LowImmediates(raw');
  }

  lemma NegationIsOpposite(c: Cond, a: Word, b: Word)
    ensures c.Negate().Negate() == c && c.Holds(a, b) != c.Negate().Holds(a, b)
  {}

  /** Two words that differ only in carrying opposite opcodes are the same branch on opposite conditions, so
      exactly one of them is taken; JIC answers JIALC, and POP26 and POP27 with rt = 0 both do nothing. */
  lemma OppositeBranches(raw: Word, raw': Word, gpr: Gpr)
    requires Imm26(raw) == Imm26(raw') && OppositeOpcodes(Op(raw), Op(raw'))
    ensures Disassemble(raw).Some? && Disassemble(raw').Some?
    ensures match Disassemble(raw).value
            case Branch(c, a, b, offset, kind) =>
              && Disassemble(raw').value == Branch(c.Negate(), a, b, offset, kind)
              && c.Holds(gpr[a], gpr[b]) != c.Negate().Holds(gpr[a], gpr[b])
            case JumpIndexed(rt, offset, link) =>
              Rs(raw) == 0 && Disassemble(raw').value == JumpIndexed(rt, offset, !link)
            case Nop => Rt(raw) == 0 && Op(raw) in {22, 23} && Disassemble(raw').value == Nop
            case _ => false
  {
    hide Op, Rs, Rt, Imm16, Imm21, Imm26, SignedField, Cond.Holds;
    SharedFields(raw, raw');
    var i := Disassemble(raw).value;
    if i.Branch? { NegationIsOpposite(i.cond, gpr[i.a], gpr[i.b]); }
  }

  /** BGEZ and BLTZ, which share an opcode and differ in their function field. */
  lemma OppositeRegimm(raw: Word, raw': Word, gpr: Gpr)
    requires Op(raw) == 1 && Op(raw') == 1 && Rt(raw) == 1 && Rt(raw') == 0
    requires Rs(raw) == Rs(raw') && Imm16(raw) == Imm16(raw')
    ensures match (Disassemble(raw), Disassemble(raw'))
            case (Some(Branch(c, a, b, offset, kind)), Some(i)) =>
              && i == Branch(c.Negate(), a, b, offset, kind)
              && c.Holds(gpr[a], gpr[b]) != c.Negate().Holds(gpr[a], gpr[b])
            case _ => false
  {
    hide Op, Rs, Rt, Imm16, SignedField, Cond.Holds;
    NegationIsOpposite(GE, gpr[Rs(raw)], gpr[0]);
  }

  // ---- The overflow flag of BOVC and BNVC ----

  /** The flag is signed overflow exactly on operands of equal sign. */
  lemma OverflowFlagExactIff(a: Word, b: Word)
    ensures (CarryDiffersFromSign(a, b) <==> SumOverflows(a, b)) <==> ((Signed(a) < 0) == (Signed(b) < 0))
  {
    OverflowMeaning(a, b);
  }

  /** 1 + (-1) does not overflow, and BOVC takes the branch. */
  lemma OverflowFlagCounterexample()
    ensures CarryDiffersFromSign(1, ALL_ONES) && !SumOverflows(1, ALL_ONES)
  {
    OverflowMeaning(1, ALL_ONES);
  }

  // ---- PC-relative addresses ----

  lemma SameSumIff(a: Word, b: Word, x: int)
    ensures Wrap(a + x) == Wrap(b + x) <==> a == b
  {}

  lemma DifferentAddresses(pc: Word, x: int, y: int)
    requires 0 < x - y < TWO32
    ensures Wrap(pc + x) != Wrap(pc + y)
  {}

  /** The distance the comments of ADDIUPC and LWPC promise: the 19-bit field, sign-extended, times four. */
  function PromisedDistance(imm: Bits19): int {
    4 * SignedField(imm, 19)
  }

  /** The sign extension alone: over one and the same base, the coded distance leads to the promised address
      exactly when it is not negative. */
  lemma PcRelExtensionIff(pc: Word, imm: Bits19)
    ensures PcRelAddress(pc, imm) == Wrap(pc + PromisedDistance(imm)) <==> imm < 0x4_0000
  {
    hide PcRelAddress, Wrap;
    Pow2Table();
    PcRelMeaning(pc, imm);
    if imm >= 0x4_0000 { DifferentAddresses(pc, 4 * imm, PromisedDistance(imm)); }
  }

  /** A distance of minus one word leads 2 MB forward. */
  lemma PcRelSignedCounterexample()
    ensures SignedField(0x7_FFFF, 19) == -1 && PcRelAddress(0x1000, 0x7_FFFF) == 0x20_0FFC
  {
    hide PcRelAddress;
    Pow2Table();
    PcRelMeaning(0x1000, 0x7_FFFF);
  }

  /** The base is the address of the next instruction due, and it is unextended distances that are added to it;
      the comments promise the address of the instruction itself and extended ones. For a distance that is not
      negative the two sums agree when the instruction is itself the next one due, which takes a delay slot
      whose branch leads back to it; for a negative one, when the next one due lies 2 MB before it. */
  predicate PcRelBase(r: Regs, imm: Bits19) {
    NextPc(r) == if imm < 0x4_0000 then r.pc else Wrap(r.pc - 0x20_0000)
  }

  lemma PcRelBaseIff(r: Regs, imm: Bits19)
    ensures Wrap(NextPc(r) + 4 * imm) == Wrap(r.pc + PromisedDistance(imm)) <==> PcRelBase(r, imm)
    ensures !r.flag ==> !PcRelBase(r, imm)
  {
    hide Wrap;
    Pow2Table();
    var base := if imm < 0x4_0000 then r.pc else Wrap(r.pc - 0x20_0000);
    SameSumIff(NextPc(r), base, 4 * imm);
    MovedBase(r.pc, 4 * imm);
    AdvancedElsewhere(r.pc);
  }

  lemma MovedBase(pc: Word, x: int)
    ensures Wrap(Wrap(pc - 0x20_0000) + x) == Wrap(pc + (x - 0x20_0000))
  {}

  lemma AdvancedElsewhere(pc: Word)
    ensures Wrap(pc + 4) != pc && Wrap(pc + 4) != Wrap(pc - 0x20_0000)
  {}

  lemma WritesDifferIff(gpr: Gpr, r: Reg, v: Word, v': Word)
    ensures WriteGpr(gpr, To(r, v)) == WriteGpr(gpr, To(r, v')) <==> r == 0 || v == v'
  {
    if r == 0 { WriteToZero(gpr, v, v'); } else if v != v' { DifferentWrites(gpr, r, v, v'); }
  }

  /** ADDIUPC writes the address its comment promises exactly under the condition on the two addresses, and so
      never when no branch is pending, unless it writes to $0. */
  lemma AddPcPromiseIff(env: Env, m: Machine, raw: Word)
    requires Op(raw) == 59 && PcFunc1(raw) == 0
    ensures EffectAt(env, m, raw) == Set(Rs(raw), Wrap(m.regs.pc + PromisedDistance(Imm19(raw))))
       <==> PcRelBase(m.regs, Imm19(raw))
    ensures Written(m.regs.gpr, EffectAt(env, m, raw))
         == Written(m.regs.gpr, Set(Rs(raw), Wrap(m.regs.pc + PromisedDistance(Imm19(raw)))))
       <==> Rs(raw) == 0 || PcRelBase(m.regs, Imm19(raw))
    ensures !m.regs.flag ==> !PcRelBase(m.regs, Imm19(raw))
  {
    hide Wrap, Op, Rs, Rt, Imm19, PcFunc1, PcRelBase, PromisedDistance, WriteGpr, NextPc;
    PcRelBaseIff(m.regs, Imm19(raw));
    WritesDifferIff(m.regs.gpr, Rs(raw), Wrap(NextPc(m.regs) + 4 * Imm19(raw)),
                    Wrap(m.regs.pc + PromisedDistance(Imm19(raw))));
  }

  /** Loading the word at addr into rs, or failing. */
  function WordLoaded(env: Env, m: Machine, rs: Reg, addr: Word): Effect {
    match Read(env.bus, m.mem, addr, 4)
    case Err(_) => Fail
    case Ok(v) => Set(rs, v)
  }

  /** LWPC loads from the address its comment promises exactly under the same condition. */
  lemma LoadPcPromiseIff(env: Env, m: Machine, raw: Word)
    requires Op(raw) == 59 && PcFunc1(raw) == 1
    ensures var addr := Wrap(NextPc(m.regs) + 4 * Imm19(raw));
            && EffectAt(env, m, raw) == WordLoaded(env, m, Rs(raw), addr)
            && (addr == Wrap(m.regs.pc + PromisedDistance(Imm19(raw))) <==> PcRelBase(m.regs, Imm19(raw)))
    ensures !m.regs.flag ==> !PcRelBase(m.regs, Imm19(raw))
  {
    hide Wrap, Op, Rs, Rt, Imm19, PcFunc1, PcRelBase, PromisedDistance, NextPc, Read;
    PcRelBaseIff(m.regs, Imm19(raw));
  }

  /** AUIPC writes the promised sum exactly when the instruction is itself the next one due. */
  lemma UpperPcPromiseIff(env: Env, m: Machine, raw: Word)
    requires Op(raw) == 59 && Rt(raw) == 30
    ensures EffectAt(env, m, raw) == Set(Rs(raw), Wrap(m.regs.pc + 0x1_0000 * Imm16(raw)))
       <==> NextPc(m.regs) == m.regs.pc
    ensures Written(m.regs.gpr, EffectAt(env, m, raw))
         == Written(m.regs.gpr, Set(Rs(raw), Wrap(m.regs.pc + 0x1_0000 * Imm16(raw))))
       <==> Rs(raw) == 0 || NextPc(m.regs) == m.regs.pc
    ensures NextPc(m.regs) == m.regs.pc <==> m.regs.flag && m.regs.target == m.regs.pc
  {
    hide Wrap, Op, Rs, Rt, Imm16, Imm19, PcFunc1, WriteGpr;
    PcRelFunctions(raw);
    SameSumIff(NextPc(m.regs), m.regs.pc, 0x1_0000 * Imm16(raw));
    WritesDifferIff(m.regs.gpr, Rs(raw), Wrap(NextPc(m.regs) + 0x1_0000 * Imm16(raw)),
                    Wrap(m.regs.pc + 0x1_0000 * Imm16(raw)));
    AdvancedElsewhere(m.regs.pc);
  }

  lemma WrapOfBlock(w: Word, imm: Bits16)
    ensures Wrap(w + 0x1_0000 * imm) / 0x1_0000 == (w / 0x1_0000 + imm) % 0x1_0000
  {
    var block, low := w / 0x1_0000, w % 0x1_0000;
    WrapCongruent(w + 0x1_0000 * imm, 0x1_0000 * ((block + imm) % 0x1_0000) + low, (block + imm) / 0x1_0000);
    WrapSmall(0x1_0000 * ((block + imm) % 0x1_0000) + low);
    DivUnique(0x1_0000 * ((block + imm) % 0x1_0000) + low, 0x1_0000, (block + imm) % 0x1_0000, low);
  }

  lemma SameBlockIff(a: nat, b: nat, imm: nat)
    requires a < 0x1_0000 && b < 0x1_0000
    ensures (a + imm) % 0x1_0000 == (b + imm) % 0x1_0000 <==> a == b
  {}

  lemma NextBlock(pc: Word)
    ensures Wrap(pc + 4) / 0x1_0000 == pc / 0x1_0000 <==> pc % 0x1_0000 < 0xFFFC
  {}

  /** ALUIPC writes the promised block exactly when the next instruction due lies in the same 64K block; with
      no branch pending that is every address but the last word of a block. */
  lemma AlignedUpperPcPromiseIff(env: Env, m: Machine, raw: Word)
    requires Op(raw) == 59 && Rt(raw) == 31
    ensures EffectAt(env, m, raw) == Set(Rs(raw), Wrap(m.regs.pc + 0x1_0000 * Imm16(raw)) / 0x1_0000 * 0x1_0000)
       <==> NextPc(m.regs) / 0x1_0000 == m.regs.pc / 0x1_0000
    ensures Written(m.regs.gpr, EffectAt(env, m, raw))
         == Written(m.regs.gpr, Set(Rs(raw), Wrap(m.regs.pc + 0x1_0000 * Imm16(raw)) / 0x1_0000 * 0x1_0000))
       <==> Rs(raw) == 0 || NextPc(m.regs) / 0x1_0000 == m.regs.pc / 0x1_0000
    ensures !m.regs.flag ==>
              (NextPc(m.regs) / 0x1_0000 == m.regs.pc / 0x1_0000 <==> m.regs.pc % 0x1_0000 < 0xFFFC)
  {
    hide Wrap, Op, Rs, Rt, Imm16, Imm19, PcFunc1, WriteGpr;
    PcRelFunctions(raw);
    WrapOfBlock(NextPc(m.regs), Imm16(raw));
    WrapOfBlock(m.regs.pc, Imm16(raw));
    SameBlockIff(NextPc(m.regs) / 0x1_0000, m.regs.pc / 0x1_0000, Imm16(raw));
    WritesDifferIff(m.regs.gpr, Rs(raw), Wrap(NextPc(m.regs) + 0x1_0000 * Imm16(raw)) / 0x1_0000 * 0x1_0000,
                    Wrap(m.regs.pc + 0x1_0000 * Imm16(raw)) / 0x1_0000 * 0x1_0000);
    NextBlock(m.regs.pc);
  }

  lemma AddPcWord()
    ensures Disassemble(0xED00_0000) == Some(AddPc(8, 0))
  {}

  lemma LoadPcWord()
    ensures Disassemble(0xED08_0000) == Some(LoadPc(8, 0))
  {}

  lemma UpperPcWord()
    ensures Disassemble(0xED1E_0000) == Some(AddPc(8, 0))
  {}

  lemma AlignedUpperPcWord()
    ensures Disassemble(0xED1F_0000) == Some(AlignedAddPc(8, 0))
  {}

  /** ADDIUPC $8, 0 and AUIPC $8, 0 at 0x1000 write 0x1004; LWPC $8, 0 there loads the word after its own. */
  lemma PcRelBaseCounterexample(env: Env, m: Machine)
    requires m.regs.pc == 0x1000 && !m.regs.flag
    ensures Fetch(env, m) in {Ok(0xED00_0000), Ok(0xED1E_0000)} ==>
              Step(env, m).ok && Step(env, m).machine.regs.gpr[8] == 0x1004
    ensures Fetch(env, m) == Ok(0xED08_0000) && Read(env.bus, m.mem, 0x1004, 4).Ok? ==>
              Step(env, m).ok && Ok(Step(env, m).machine.regs.gpr[8]) == Read(env.bus, m.mem, 0x1004, 4)
  {
    hide Disassemble, Read;
    AddPcWord();
    LoadPcWord();
    UpperPcWord();
    StepUnfolds(env, m);
  }

  /** ALUIPC $8, 0 in the last word of a 64K block writes the next block. */
  lemma AlignedUpperPcCounterexample(env: Env, m: Machine)
    requires m.regs.pc == 0xFFFC && !m.regs.flag && Fetch(env, m) == Ok(0xED1F_0000)
    ensures Step(env, m).ok && Step(env, m).machine.regs.gpr[8] == 0x1_0000
  {
    hide Disassemble, Read;
    AlignedUpperPcWord();
    StepUnfolds(env, m);
  }

  // ---- Reach ----

  predicate InReach(pc: Word, t: Word, n: nat) {
    var distance := Signed(Wrap(t - pc));
    distance % 4 == 0 && -2 * Pow2(n) <= distance < 2 * Pow2(n)
  }

  function BranchTarget(pc: Word, field: nat, n: nat): Word
    requires n > 0
  {
    Wrap(pc + 4 * SignedField(field, n))
  }

  lemma FieldRange(field: nat, n: nat)
    requires 0 < n <= 26 && field < Pow2(n)
    ensures 0 <= 2 * SignedField(field, n) + Pow2(n) < 2 * Pow2(n) && Pow2(n) <= 0x400_0000
  {
    hide Pow2;
    Pow2Monotone(n, 26);
    Pow2Table();
    HalvePow2(n);
  }

  lemma DistanceOf(pc: Word, x: int)
    requires -0x2000_0000 <= x < 0x2000_0000
    ensures Signed(Wrap(Wrap(pc + 4 * x) - pc)) == 4 * x
  {
    WrapCongruent(Wrap(pc + 4 * x) - pc, 4 * x, (pc + 4 * x) / TWO32 * -1);
    SignedOfWrap(4 * x);
  }

  lemma TargetAtDistance(pc: Word, t: Word)
    ensures Wrap(pc + Signed(Wrap(t - pc))) == t
  {}

  /** The field that makes a branch at pc reach t. */
  function FieldFor(pc: Word, t: Word, n: nat): int {
    var x := Signed(Wrap(t - pc)) / 4;
    if x >= 0 then x else x + Pow2(n)
  }

  lemma FieldReaches(pc: Word, t: Word, n: nat)
    requires 0 < n <= 26 && InReach(pc, t, n)
    ensures 0 <= FieldFor(pc, t, n) < Pow2(n) && BranchTarget(pc, FieldFor(pc, t, n), n) == t
  {
    hide Pow2, Wrap, Signed;
    HalvePow2(n);
    TargetAtDistance(pc, t);
  }

  lemma FieldStaysInReach(pc: Word, field: nat, n: nat)
    requires 0 < n <= 26 && field < Pow2(n)
    ensures InReach(pc, BranchTarget(pc, field, n), n)
  {
    hide Pow2, Wrap, Signed, SignedField;
    FieldRange(field, n);
    DistanceOf(pc, SignedField(field, n));
  }

  /** BEQ words reach from the advanced pc exactly the addresses a multiple of four away, from 2^17 bytes back
      to 4 bytes short of 2^17 bytes ahead. */
  lemma DelayedBranchReach(env: Env, gpr: Gpr, pc: Word, mem: seq<Byte>, t: Word)
    ensures InReach(pc, t, 16)
       <==> exists raw: Word :: Op(raw) == 4 && EffectOf(env, raw, gpr, pc, mem) == Done(NoWrite, After(t))
  {
    hide Op, Rs, Rt, Imm16, InReach, Pow2, SignedField, Wrap, FieldFor, Encode;
    Pow2Table();
    if InReach(pc, t, 16) {
      FieldReaches(pc, t, 16);
      var raw := Encode([FieldFor(pc, t, 16), 0, 0, 4], ITYPE);
      FourFields(FieldFor(pc, t, 16), 0, 0, 4);
      assert Op(raw) == 4 && EffectOf(env, raw, gpr, pc, mem) == Done(NoWrite, After(t));
    }
    forall raw: Word | Op(raw) == 4 && EffectOf(env, raw, gpr, pc, mem) == Done(NoWrite, After(t))
      ensures InReach(pc, t, 16)
    {
      FieldStaysInReach(pc, Imm16(raw), 16);
    }
  }

  /** BEQZC words on a register that holds zero reach 2^22 bytes either way. */
  lemma CompactZeroReach(env: Env, gpr: Gpr, pc: Word, mem: seq<Byte>, t: Word, rs: Reg)
    requires rs != 0 && gpr[rs] == gpr[0] == 0
    ensures InReach(pc, t, 21)
       <==> exists raw: Word ::
              Op(raw) == 54 && Rs(raw) == rs && EffectOf(env, raw, gpr, pc, mem) == Done(NoWrite, Now(t))
  {
    hide Op, Rs, Rt, Imm16, Imm21, InReach, Pow2, SignedField, Wrap, FieldFor, Encode;
    Pow2Table();
    if InReach(pc, t, 21) {
      FieldReaches(pc, t, 21);
      var raw := Encode([FieldFor(pc, t, 21), rs, 54], LONGIMM_ITYPE);
      ThreeFields(FieldFor(pc, t, 21), rs, 54);
      assert Op(raw) == 54 && Rs(raw) == rs && EffectOf(env, raw, gpr, pc, mem) == Done(NoWrite, Now(t));
    }
    forall raw: Word | Op(raw) == 54 && Rs(raw) == rs && EffectOf(env, raw, gpr, pc, mem) == Done(NoWrite, Now(t))
      ensures InReach(pc, t, 21)
    {
      FieldStaysInReach(pc, Imm21(raw), 21);
    }
  }

  /** BC and BALC words reach 2^27 bytes either way. */
  lemma CompactReach(env: Env, gpr: Gpr, pc: Word, mem: seq<Byte>, t: Word, link: bool)
    ensures InReach(pc, t, 26)
       <==> exists raw: Word ::
              && Op(raw) == (if link then 58 else 50)
              && EffectOf(env, raw, gpr, pc, mem) == Done(Link(link, pc), Now(t))
  {
    hide Op, Imm26, InReach, Pow2, SignedField, Wrap, FieldFor, Encode;
    Pow2Table();
    var op := if link then 58 else 50;
    if InReach(pc, t, 26) {
      FieldReaches(pc, t, 26);
      var raw := Encode([FieldFor(pc, t, 26), op], JTYPE);
      TwoFields(FieldFor(pc, t, 26), op);
      assert Op(raw) == op && EffectOf(env, raw, gpr, pc, mem) == Done(Link(link, pc), Now(t));
    }
    forall raw: Word | Op(raw) == op && EffectOf(env, raw, gpr, pc, mem) == Done(Link(link, pc), Now(t))
      ensures InReach(pc, t, 26)
    {
      FieldStaysInReach(pc, Imm26(raw), 26);
    }
  }

  function RegionOf(pc: Word): int {
    pc / 0x1000_0000
  }

  function AddressIn(t: Word): (address: Bits26)
    ensures t % 4 == 0 ==> t == RegionOf(t) * 0x1000_0000 + 4 * address
  {
    t % 0x1000_0000 / 4
  }

  lemma RegionParts(region: nat, address: Bits26)
    requires region < 16
    ensures var t := region * 0x1000_0000 + 4 * address;
            0 <= t < TWO32 && t % 4 == 0 && t / 0x1000_0000 == region
  {}

  /** Where J and JAL go, as Isa computes it. */
  function RegionAddress(pc: Word, address: Bits26): Word {
    Wrap(pc / 0x1000_0000 * 0x1000_0000 + 4 * address)
  }

  lemma RegionTargetStays(pc: Word, address: Bits26)
    ensures RegionAddress(pc, address) % 4 == 0 && RegionOf(RegionAddress(pc, address)) == RegionOf(pc)
    ensures RegionAddress(pc, address) == RegionOf(pc) * 0x1000_0000 + 4 * address
  {
    hide Wrap;
    RegionParts(RegionOf(pc), address);
    WrapSmall(RegionOf(pc) * 0x1000_0000 + 4 * address);
  }

  lemma RegionWordGoes(env: Env, raw: Word, gpr: Gpr, pc: Word, mem: seq<Byte>, link: bool)
    requires Op(raw) == (if link then 3 else 2)
    ensures EffectOf(env, raw, gpr, pc, mem) == Done(Link(link, pc), After(RegionAddress(pc, Imm26(raw))))
  {
    hide Op, Imm26, Wrap;
  }

  /** J and JAL words reach exactly the word-aligned addresses of the 256 MB region of the advanced pc. */
  lemma RegionReach(env: Env, gpr: Gpr, pc: Word, mem: seq<Byte>, t: Word, link: bool)
    ensures t % 4 == 0 && RegionOf(t) == RegionOf(pc)
       <==> exists raw: Word ::
              && Op(raw) == (if link then 3 else 2)
              && EffectOf(env, raw, gpr, pc, mem) == Done(Link(link, pc), After(t))
  {
    hide Op, Imm26, RegionOf, AddressIn, RegionAddress, Encode, EffectOf, Link;
    var op := if link then 3 else 2;
    if t % 4 == 0 && RegionOf(t) == RegionOf(pc) {
      var address := AddressIn(t);
      RegionTargetStays(pc, address);
      TwoFields(address, op);
      var raw := Encode([address, op], JTYPE);
      RegionWordGoes(env, raw, gpr, pc, mem, link);
      assert Op(raw) == op && EffectOf(env, raw, gpr, pc, mem) == Done(Link(link, pc), After(t));
    }
    forall raw: Word | Op(raw) == op && EffectOf(env, raw, gpr, pc, mem) == Done(Link(link, pc), After(t))
      ensures t % 4 == 0 && RegionOf(t) == RegionOf(pc)
    {
      RegionWordGoes(env, raw, gpr, pc, mem, link);
      RegionTargetStays(pc, Imm26(raw));
    }
  }

  // ---- Links ----

  /** A JIALC word jumps to its base register plus the offset exactly when that register is not the one it
      links, or already holds the link. */
  lemma IndexedLinkIff(env: Env, raw: Word, gpr: Gpr, pc: Word, mem: seq<Byte>)
    requires Op(raw) == 62 && Rs(raw) == 0
    ensures EffectOf(env, raw, gpr, pc, mem) == Done(To(RA, pc), Now(Wrap(gpr[Rt(raw)] + Offset16(raw))))
       <==> (Rt(raw) != RA || gpr[RA] == pc)
  {
    hide Wrap, Offset16, Op, Rs, Rt;
    if Rt(raw) == RA && gpr[RA] != pc { SameSumIff(gpr[RA], pc, Offset16(raw)); }
  }

  /** JIALC $31, 0 with 0x4000 in $31 goes to its own link instead. */
  lemma IndexedLinkCounterexample(env: Env, gpr: Gpr, mem: seq<Byte>)
    requires gpr[RA] == 0x4000
    ensures EffectOf(env, 0xF81F_0000, gpr, 0x1004, mem) == Done(To(RA, 0x1004), Now(0x1004))
  {
    Pow2Table();
  }

  /** JALR links $31 and no other register, which is the register its rd field names exactly when that is $31.
      The registers end up as if rd had been linked in one more case: both already held the link, with $0 for
      rd holding nothing. */
  lemma JalrLinkIff(env: Env, raw: Word, gpr: Gpr, pc: Word, mem: seq<Byte>)
    requires Op(raw) == 0 && Func(raw) == 9
    ensures EffectOf(env, raw, gpr, pc, mem) == Done(To(RA, pc), After(gpr[Rs(raw)]))
    ensures EffectOf(env, raw, gpr, pc, mem) == Done(To(Rd(raw), pc), After(gpr[Rs(raw)])) <==> Rd(raw) == RA
    ensures Written(gpr, EffectOf(env, raw, gpr, pc, mem)) == Written(gpr, Done(To(Rd(raw), pc), After(gpr[Rs(raw)])))
       <==> Rd(raw) == RA || (gpr[RA] == pc && (Rd(raw) == 0 || gpr[Rd(raw)] == pc))
  {
    hide Op, Rs, Rt, Rd, Shamt, Func, WriteGpr;
    SameLinkIff(gpr, Rd(raw), pc);
  }

  lemma SameLinkIff(gpr: Gpr, r: Reg, pc: Word)
    ensures WriteGpr(gpr, To(RA, pc)) == WriteGpr(gpr, To(r, pc))
       <==> r == RA || (gpr[RA] == pc && (r == 0 || gpr[r] == pc))
  {
    var x, y := WriteGpr(gpr, To(RA, pc)), WriteGpr(gpr, To(r, pc));
    assert x[RA] == pc && y[r] == (if r == 0 then 0 else pc);
    assert r != RA ==> y[RA] == gpr[RA] && x[r] == (if r == 0 then 0 else gpr[r]);
  }

  lemma JalrWord()
    ensures Disassemble(0x0120_4009) == Some(JumpReg(9, true)) && Rd(0x0120_4009) == 8
  {}

  /** JALR $8, $9 leaves $8 alone. */
  lemma JalrLinkCounterexample(env: Env, gpr: Gpr, pc: Word, mem: seq<Byte>)
    ensures EffectOf(env, 0x0120_4009, gpr, pc, mem) == Done(To(RA, pc), After(gpr[9])) && Rd(0x0120_4009) == 8
  {
    hide Disassemble;
    JalrWord();
  }

  /** A conditional compact branch links exactly when it is taken. So $31 holds the link afterwards exactly when
      the branch is taken or $31 held it before. */
  lemma ConditionalLinkIff(env: Env, raw: Word, gpr: Gpr, pc: Word, mem: seq<Byte>)
    requires Disassemble(raw).Some? && Disassemble(raw).value.Branch? && Disassemble(raw).value.kind == CompactLink
    ensures var i, e := Disassemble(raw).value, EffectOf(env, raw, gpr, pc, mem);
            && e.Done?
            && (e.write == To(RA, pc) <==> i.cond.Holds(gpr[i.a], gpr[i.b]))
            && (e.write == NoWrite <==> e.control == Next)
            && (Written(gpr, e)[RA] == pc <==> i.cond.Holds(gpr[i.a], gpr[i.b]) || gpr[RA] == pc)
  {
    hide Disassemble, Cond.Holds, Wrap;
  }

  lemma BeqzalcWord()
    ensures Disassemble(0x2001_0000) == Some(Branch(EQ, 0, 1, 0, CompactLink))
  {}

  /** BEQZALC $1 with a non-zero $1 leaves $31 alone. */
  lemma ConditionalLinkCounterexample(env: Env, gpr: Gpr, pc: Word, mem: seq<Byte>)
    requires gpr[0] == 0 && gpr[1] == 1
    ensures EffectOf(env, 0x2001_0000, gpr, pc, mem) == Done(NoWrite, Next)
    ensures Disassemble(0x2001_0000) == Some(Branch(EQ, 0, 1, 0, CompactLink))
  {
    hide Disassemble;
    BeqzalcWord();
  }
}

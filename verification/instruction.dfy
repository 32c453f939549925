/** The 32-bit instruction word, its overlapping bit-field layouts, its constructors and its classifier. */
module Instructions {
  import opened Words

  datatype Option<+T> = None | Some(value: T)

  datatype Type =
    | RType | IType | JType | FpuRType | FpuBType | FpuTType
    | Special3Bshfl | Special3Ext | Special3Ins
    | RegimmIType | PcRelType1 | PcRelType2 | LongImmIType

  // ---- Bit-field layouts: the widths of a packed struct, least significant field first ----

  type Layout = seq<nat>

  const RTYPE: Layout := [6, 5, 5, 5, 5, 6]
  const ITYPE: Layout := [16, 5, 5, 6]
  const JTYPE: Layout := [26, 6]
  const FPU_RTYPE: Layout := [6, 5, 5, 5, 5, 6]
  const FPU_BTYPE: Layout := [16, 5, 5, 6]
  const FPU_TTYPE: Layout := [11, 5, 5, 5, 6]
  const SPECIAL3: Layout := [6, 5, 5, 5, 5, 6]
  const REGIMM_ITYPE: Layout := [16, 5, 5, 6]
  const PCREL_TYPE1: Layout := [19, 2, 5, 6]
  const PCREL_TYPE2: Layout := [16, 5, 5, 6]
  const LONGIMM_ITYPE: Layout := [21, 5, 6]

  function Width(l: Layout): nat {
    if l == [] then 0 else l[0] + Width(l[1..])
  }

  /** The values of all fields of a layout. */
  function Unpack(raw: nat, l: Layout): (fields: seq<nat>)
    ensures |fields| == |l|
  {
    if l == [] then [] else [Keep(raw, l[0])] + Unpack(Drop(raw, l[0]), l[1..])
  }

  /** The word whose fields hold the given values, each cut to its width. */
  function Pack(fields: seq<nat>, l: Layout): nat
    requires |fields| == |l|
  {
    if l == [] then 0 else Keep(fields[0], l[0]) + Lift(Pack(fields[1..], l[1..]), l[0])
  }

  /** Assignment to the k-th bit-field of a layout: the value is cut to the field's width. */
  function SetField(raw: nat, l: Layout, k: nat, v: nat): nat
    requires k < |l|
  {
    if k == 0 then Lift(Drop(raw, l[0]), l[0]) + Keep(v, l[0])
    else Lift(SetField(Drop(raw, l[0]), l[1..], k - 1, v), l[0]) + Keep(raw, l[0])
  }

  lemma {:induction false} PackUnpack(raw: nat, l: Layout)
    requires raw < Pow2(Width(l))
    ensures Pack(Unpack(raw, l), l) == raw
  {
    if l != [] {
      DropBound(raw, l[0], Width(l[1..]));
      PackUnpack(Drop(raw, l[0]), l[1..]);
      SplitJoin(raw, l[0]);
      JoinSplit(0, Keep(raw, l[0]), l[0]);
      LiftIsMul(0, l[0]);
      assert Unpack(raw, l)[1..] == Unpack(Drop(raw, l[0]), l[1..]);
    }
  }

  lemma {:induction false} UnpackPack(fields: seq<nat>, l: Layout)
    requires |fields| == |l|
    ensures Pack(fields, l) < Pow2(Width(l))
    ensures forall k :: 0 <= k < |l| ==> Unpack(Pack(fields, l), l)[k] == Keep(fields[k], l[k])
  {
    if l != [] {
      var rest := Pack(fields[1..], l[1..]);
      UnpackPack(fields[1..], l[1..]);
      LiftBound(rest, Keep(fields[0], l[0]), l[0], Width(l[1..]));
      JoinSplit(rest, Keep(fields[0], l[0]), l[0]);
    }
  }

  /** A bit-field assignment changes that field and no other, and stays inside the layout. */
  lemma {:induction false} SetFieldUnpack(raw: nat, l: Layout, k: nat, v: nat)
    requires k < |l| && raw < Pow2(Width(l))
    ensures SetField(raw, l, k, v) < Pow2(Width(l))
    ensures Unpack(SetField(raw, l, k, v), l) == Unpack(raw, l)[k := Keep(v, l[k])]
  {
    hide Pow2, Lift, Keep, Drop;
    var hi, lo := Drop(raw, l[0]), Keep(raw, l[0]);
    DropBound(raw, l[0], Width(l[1..]));
    if k == 0 {
      lo := Keep(v, l[0]);
    } else {
      SetFieldUnpack(hi, l[1..], k - 1, v);
      hi := SetField(hi, l[1..], k - 1, v);
    }
    LiftBound(hi, lo, l[0], Width(l[1..]));
    JoinSplit(hi, lo, l[0]);
  }

  // ---- The fields the executor reads ----

  type Bits5 = x: int | 0 <= x < 0x20
  type Bits6 = x: int | 0 <= x < 0x40
  type Bits16 = x: int | 0 <= x < 0x1_0000
  type Bits19 = x: int | 0 <= x < 0x8_0000
  type Bits21 = x: int | 0 <= x < 0x20_0000
  type Bits26 = x: int | 0 <= x < 0x400_0000

  function Op(raw: Word): Bits6 { raw / 0x400_0000 }
  function Rs(raw: Word): Bits5 { raw / 0x20_0000 % 0x20 }
  function Rt(raw: Word): Bits5 { raw / 0x1_0000 % 0x20 }
  function Rd(raw: Word): Bits5 { raw / 0x800 % 0x20 }
  function Shamt(raw: Word): Bits5 { raw / 0x40 % 0x20 }
  function Func(raw: Word): Bits6 { raw % 0x40 }
  function Imm16(raw: Word): Bits16 { raw % 0x1_0000 }
  function Imm19(raw: Word): Bits19 { raw % 0x8_0000 }
  function PcFunc1(raw: Word): nat { raw / 0x8_0000 % 4 }
  function Imm21(raw: Word): Bits21 { raw % 0x20_0000 }
  function Imm26(raw: Word): Bits26 { raw % 0x400_0000 }

  /** Where the k-th field starts. */
  function Offset(l: Layout, k: nat): nat
    requires k < |l|
  {
    if k == 0 then 0 else l[0] + Offset(l[1..], k - 1)
  }

  /** Field k of any layout is the run of l[k] bits of the word that starts at its offset. */
  lemma {:induction false} UnpackAt(raw: nat, l: Layout, k: nat)
    requires k < |l|
    ensures Unpack(raw, l)[k] == Keep(Drop(raw, Offset(l, k)), l[k])
  {
    if k > 0 {
      UnpackAt(Drop(raw, l[0]), l[1..], k - 1);
      DropDrop(raw, l[0], Offset(l[1..], k - 1));
    }
  }

  /** Overlapping views agree on the bits they share: whatever the two layouts, a bit that lies in a
      field of each reads the same through both. */
  lemma ViewsAgree(raw: nat, l: Layout, k: nat, i: nat, l': Layout, k': nat, i': nat)
    requires k < |l| && i < l[k] && k' < |l'| && i' < l'[k']
    requires Offset(l, k) + i == Offset(l', k') + i'
    ensures Bit(Unpack(raw, l)[k], i) == Bit(Unpack(raw, l')[k'], i') == Bit(raw, Offset(l, k) + i)
  {
    UnpackAt(raw, l, k);
    UnpackAt(raw, l', k');
    BitOfKeep(Drop(raw, Offset(l, k)), l[k], i);
    BitOfKeep(Drop(raw, Offset(l', k')), l'[k'], i');
    BitOfDrop(raw, Offset(l, k), i);
    BitOfDrop(raw, Offset(l', k'), i');
  }

  lemma FieldAt(raw: nat, l: Layout, k: nat, p: nat, q: nat)
    requires k < |l| && p == Pow2(Offset(l, k)) && q == Pow2(l[k])
    ensures Unpack(raw, l)[k] == raw / p % q
  {
    UnpackAt(raw, l, k);
    SplitAt(raw, Offset(l, k), p);
    SplitAt(Drop(raw, Offset(l, k)), l[k], q);
  }

  // The layouts in terms of the named fields.

  lemma OpIsTop(raw: Word)
    ensures raw / 0x400_0000 % 0x40 == Op(raw)
  {}

  lemma RTypeView(raw: Word)
    ensures Unpack(raw, RTYPE) == [Func(raw), Shamt(raw), Rd(raw), Rt(raw), Rs(raw), Op(raw)]
  {
    hide Unpack, Pow2;
    OpIsTop(raw);
    Pow2Table();
    FieldAt(raw, RTYPE, 0, 1, 64);
    FieldAt(raw, RTYPE, 1, 64, 32);
    assert Offset(RTYPE, 2) == 11;
    FieldAt(raw, RTYPE, 2, 0x800, 32);
    assert Offset(RTYPE, 3) == 16;
    FieldAt(raw, RTYPE, 3, 0x1_0000, 32);
    assert Offset(RTYPE, 4) == 21;
    FieldAt(raw, RTYPE, 4, 0x20_0000, 32);
    assert Offset(RTYPE, 5) == 26;
    FieldAt(raw, RTYPE, 5, 0x400_0000, 64);
  }

  lemma ITypeView(raw: Word)
    ensures Unpack(raw, ITYPE) == [Imm16(raw), Rt(raw), Rs(raw), Op(raw)]
  {
    hide Unpack, Pow2;
    OpIsTop(raw);
    Pow2Table();
    FieldAt(raw, ITYPE, 0, 1, 0x1_0000);
    FieldAt(raw, ITYPE, 1, 0x1_0000, 32);
    assert Offset(ITYPE, 2) == 21;
    FieldAt(raw, ITYPE, 2, 0x20_0000, 32);
    assert Offset(ITYPE, 3) == 26;
    FieldAt(raw, ITYPE, 3, 0x400_0000, 64);
  }

  lemma JTypeView(raw: Word)
    ensures Unpack(raw, JTYPE) == [Imm26(raw), Op(raw)]
  {
    hide Unpack, Pow2;
    OpIsTop(raw);
    Pow2Table();
    FieldAt(raw, JTYPE, 0, 1, 0x400_0000);
    FieldAt(raw, JTYPE, 1, 0x400_0000, 64);
  }

  lemma FpuTTypeView(raw: Word)
    ensures Unpack(raw, FPU_TTYPE) == [raw % 0x800, Rd(raw), Rt(raw), Rs(raw), Op(raw)]
  {
    hide Unpack, Pow2;
    OpIsTop(raw);
    Pow2Table();
    FieldAt(raw, FPU_TTYPE, 0, 1, 0x800);
    FieldAt(raw, FPU_TTYPE, 1, 0x800, 32);
    assert Offset(FPU_TTYPE, 2) == 16;
    FieldAt(raw, FPU_TTYPE, 2, 0x1_0000, 32);
    assert Offset(FPU_TTYPE, 3) == 21;
    FieldAt(raw, FPU_TTYPE, 3, 0x20_0000, 32);
    assert Offset(FPU_TTYPE, 4) == 26;
    FieldAt(raw, FPU_TTYPE, 4, 0x400_0000, 64);
  }

  lemma PcRelType1View(raw: Word)
    ensures Unpack(raw, PCREL_TYPE1) == [Imm19(raw), PcFunc1(raw), Rs(raw), Op(raw)]
  {
    hide Unpack, Pow2;
    OpIsTop(raw);
    Pow2Table();
    FieldAt(raw, PCREL_TYPE1, 0, 1, 0x8_0000);
    FieldAt(raw, PCREL_TYPE1, 1, 0x8_0000, 4);
    assert Offset(PCREL_TYPE1, 2) == 21;
    FieldAt(raw, PCREL_TYPE1, 2, 0x20_0000, 32);
    assert Offset(PCREL_TYPE1, 3) == 26;
    FieldAt(raw, PCREL_TYPE1, 3, 0x400_0000, 64);
  }

  lemma LongImmView(raw: Word)
    ensures Unpack(raw, LONGIMM_ITYPE) == [Imm21(raw), Rs(raw), Op(raw)]
  {
    hide Unpack, Pow2;
    OpIsTop(raw);
    Pow2Table();
    FieldAt(raw, LONGIMM_ITYPE, 0, 1, 0x20_0000);
    FieldAt(raw, LONGIMM_ITYPE, 1, 0x20_0000, 32);
    assert Offset(LONGIMM_ITYPE, 2) == 26;
    FieldAt(raw, LONGIMM_ITYPE, 2, 0x400_0000, 64);
  }

  // ---- Classification ----

  // The enumerators of the source's enums.

  predicate IsITypeOpcode(op: int) {
    4 <= op <= 15 || 22 <= op <= 24 || op == 32 || op == 33 || 35 <= op <= 37 || op == 40 || op == 41 || op == 43
    || op == 54 || op == 62
  }

  predicate IsJTypeOpcode(op: int) {
    op == 2 || op == 3 || op == 50 || op == 58
  }

  predicate IsFpuFormat(op: int) {
    op == 16 || op == 17 || op == 20 || op == 21 || op == 24 || op == 25
  }

  predicate IsFpuBranch(op: int) {
    op == 9 || op == 13
  }

  predicate IsFpuTransfer(op: int) {
    op == 0 || 2 <= op <= 4 || op == 6 || op == 7
  }

  function GetType(raw: Word): Option<Type> {
    match Op(raw)
    case 0 => Some(RType)
    case 2 | 3 | 50 | 58 => Some(JType)
    case 4 | 6 | 5 | 7 | 8 | 9 | 15 | 10 | 11 | 12 | 13 | 14 | 32 | 33 | 36 | 37 | 35 | 40 | 41 | 43 | 24 | 22 | 23 =>
      Some(IType)
    case 1 => Some(RegimmIType)
    case 31 =>
      (match Func(raw)
       case 32 => Some(Special3Bshfl)
       case 0 => Some(Special3Ext)
       case 4 => Some(Special3Ins)
       case _ => None)
    case 59 => if PcFunc1(raw) / 2 % 2 == 0 then Some(PcRelType1) else Some(PcRelType2)
    case 17 =>
      if Rs(raw) / 16 % 2 == 1 then Some(FpuRType)
      else if Rs(raw) / 8 % 2 == 1 then Some(FpuBType)
      else Some(FpuTType)
    case 62 | 54 => if Rs(raw) != 0 then Some(LongImmIType) else Some(IType)
    case _ => None
  }

  // ---- Constructors ----

  /** The word whose fields are the given values, each cut to its width. */
  function Encode(fields: seq<nat>, l: Layout): Word
    requires |fields| == |l| && Width(l) == 32
  {
    Pow2At32();
    UnpackPack(fields, l);
    Pack(fields, l)
  }

  /** Bit-field by bit-field assignment over the zero word, in whatever order, builds the encoding. */
  lemma EncodingIsUnique(raw: Word, fields: seq<nat>, l: Layout)
    requires |fields| == |l| && Width(l) == 32
    requires forall k :: 0 <= k < |l| ==> Unpack(raw, l)[k] == Keep(fields[k], l[k])
    ensures raw == Encode(fields, l)
  {
    Pow2At32();
    PackUnpack(raw, l);
    UnpackPack(fields, l);
    PackUnpack(Encode(fields, l), l);
    assert Unpack(raw, l) == Unpack(Encode(fields, l), l);
  }

  class Instruction {
    var raw: Word

    /** Assignment to one bit-field of one view of the union. */
    method Assign(l: Layout, k: nat, v: nat)
      requires Width(l) == 32 && k < |l|
      modifies this
      ensures Unpack(raw, l) == Unpack(old(raw), l)[k := Keep(v, l[k])]
    {
      Pow2At32();
      SetFieldUnpack(raw, l, k, v);
      raw := SetField(raw, l, k, v);
    }

    constructor Raw(value: Word)
      ensures raw == value
    {
      raw := value;
    }

    constructor RType(func: Byte, rd: Byte, rs: Byte, rt: Byte, shiftAmount: Byte)
      ensures raw == Encode([func, shiftAmount, rd, rt, rs, 0], RTYPE)
    {
      hide Pow2, Keep, Unpack, Encode;
      raw := 0;
      new;
      Assign(RTYPE, 5, 0);
      Assign(RTYPE, 0, func);
      Assign(RTYPE, 2, rd);
      Assign(RTYPE, 4, rs);
      Assign(RTYPE, 3, rt);
      Assign(RTYPE, 1, shiftAmount);
      EncodingIsUnique(raw, [func, shiftAmount, rd, rt, rs, 0], RTYPE);
    }

    constructor IType(opcode: Byte, rt: Byte, rs: Byte, immediate: Bits16)
      ensures raw == Encode([immediate, rt, rs, opcode], ITYPE)
    {
      hide Pow2, Keep, Unpack, Encode;
      raw := 0;
      new;
      Assign(ITYPE, 3, opcode);
      Assign(ITYPE, 1, rt);
      Assign(ITYPE, 2, rs);
      Assign(ITYPE, 0, immediate);
      EncodingIsUnique(raw, [immediate, rt, rs, opcode], ITYPE);
    }

    constructor JType(opcode: Byte, address: Word)
      ensures raw == Encode([address, opcode], JTYPE)
    {
      hide Pow2, Keep, Unpack, Encode;
      raw := 0;
      new;
      Assign(JTYPE, 1, opcode);
      Assign(JTYPE, 0, address);
      EncodingIsUnique(raw, [address, opcode], JTYPE);
    }

    constructor FpuRType(op: Byte, ft: Byte, fs: Byte, fd: Byte, func: Byte)
      ensures raw == Encode([func, fd, fs, ft, op, 17], FPU_RTYPE)
    {
      hide Pow2, Keep, Unpack, Encode;
      raw := 0;
      new;
      Assign(FPU_RTYPE, 5, 17);
      Assign(FPU_RTYPE, 4, op);
      Assign(FPU_RTYPE, 3, ft);
      Assign(FPU_RTYPE, 2, fs);
      Assign(FPU_RTYPE, 1, fd);
      Assign(FPU_RTYPE, 0, func);
      EncodingIsUnique(raw, [func, fd, fs, ft, op, 17], FPU_RTYPE);
    }

    constructor FpuBType(op: Byte, ft: Byte, offset: Bits16)
      ensures raw == Encode([offset, ft, op, 17], FPU_BTYPE)
    {
      hide Pow2, Keep, Unpack, Encode;
      raw := 0;
      new;
      Assign(FPU_BTYPE, 3, 17);
      Assign(FPU_BTYPE, 2, op);
      Assign(FPU_BTYPE, 1, ft);
      Assign(FPU_BTYPE, 0, offset);
      EncodingIsUnique(raw, [offset, ft, op, 17], FPU_BTYPE);
    }

    constructor FpuTType(op: Byte, rt: Byte, fs: Byte)
      ensures raw == Encode([0, fs, rt, op, 17], FPU_TTYPE)
    {
      hide Pow2, Keep, Unpack, Encode;
      raw := 0;
      new;
      Assign(FPU_TTYPE, 4, 17);
      Assign(FPU_TTYPE, 3, op);
      Assign(FPU_TTYPE, 2, rt);
      Assign(FPU_TTYPE, 1, fs);
      Assign(FPU_TTYPE, 0, 0);
      EncodingIsUnique(raw, [0, fs, rt, op, 17], FPU_TTYPE);
    }

    constructor Special3(func: Byte, extra: Byte, rd: Byte, rs: Byte, rt: Byte)
      ensures raw == Encode([func, extra, rd, rt, rs, 31], SPECIAL3)
    {
      hide Pow2, Keep, Unpack, Encode;
      raw := 0;
      new;
      Assign(SPECIAL3, 0, func);
      Assign(SPECIAL3, 1, extra);
      Assign(SPECIAL3, 2, rd);
      Assign(SPECIAL3, 4, rs);
      Assign(SPECIAL3, 3, rt);
      Assign(SPECIAL3, 5, 31);
      EncodingIsUnique(raw, [func, extra, rd, rt, rs, 31], SPECIAL3);
    }

    constructor RegimmIType(opcode: Byte, rs: Byte, immediate: Bits16)
      ensures raw == Encode([immediate, opcode, rs, 1], REGIMM_ITYPE)
    {
      hide Pow2, Keep, Unpack, Encode;
      raw := 0;
      new;
      Assign(REGIMM_ITYPE, 1, opcode);
      Assign(REGIMM_ITYPE, 2, rs);
      Assign(REGIMM_ITYPE, 0, immediate);
      Assign(REGIMM_ITYPE, 3, 1);
      EncodingIsUnique(raw, [immediate, opcode, rs, 1], REGIMM_ITYPE);
    }

    constructor PcRelType1(rs: Byte, func: Byte, immediate: Word)
      ensures raw == Encode([immediate, func, rs, 59], PCREL_TYPE1)
    {
      hide Pow2, Keep, Unpack, Encode;
      raw := 0;
      new;
      Assign(PCREL_TYPE1, 3, 59);
      Assign(PCREL_TYPE1, 2, rs);
      Assign(PCREL_TYPE1, 1, func);
      Assign(PCREL_TYPE1, 0, immediate);
      EncodingIsUnique(raw, [immediate, func, rs, 59], PCREL_TYPE1);
    }

    constructor PcRelType2(rs: Byte, func: Byte, immediate: Bits16)
      ensures raw == Encode([immediate, func, rs, 59], PCREL_TYPE2)
    {
      hide Pow2, Keep, Unpack, Encode;
      raw := 0;
      new;
      Assign(PCREL_TYPE2, 3, 59);
      Assign(PCREL_TYPE2, 2, rs);
      Assign(PCREL_TYPE2, 1, func);
      Assign(PCREL_TYPE2, 0, immediate);
      EncodingIsUnique(raw, [immediate, func, rs, 59], PCREL_TYPE2);
    }
  }

  // ---- Decoding what a constructor built ----

  lemma SixFields(a: nat, b: nat, c: nat, d: nat, e: nat, f: nat)
    ensures var raw := Encode([a, b, c, d, e, f], RTYPE);
            && Func(raw) == a % 0x40 && Shamt(raw) == b % 0x20 && Rd(raw) == c % 0x20
            && Rt(raw) == d % 0x20 && Rs(raw) == e % 0x20 && Op(raw) == f % 0x40
  {
    hide Pow2, Keep, Func, Shamt, Rd, Rt, Rs, Op, Pack, Unpack;
    Pow2Table();
    var fields := [a, b, c, d, e, f];
    var raw := Encode(fields, RTYPE);
    UnpackPack(fields, RTYPE);
    RTypeView(raw);
    SplitAt(a, 6, 0x40);
    SplitAt(b, 5, 0x20);
    SplitAt(c, 5, 0x20);
    SplitAt(d, 5, 0x20);
    SplitAt(e, 5, 0x20);
    SplitAt(f, 6, 0x40);
    assert Unpack(raw, RTYPE)[0] == Func(raw) && Unpack(raw, RTYPE)[1] == Shamt(raw);
    assert Unpack(raw, RTYPE)[2] == Rd(raw) && Unpack(raw, RTYPE)[3] == Rt(raw);
    assert Unpack(raw, RTYPE)[4] == Rs(raw) && Unpack(raw, RTYPE)[5] == Op(raw);
  }

  lemma FourFields(imm: nat, a: nat, b: nat, op: nat)
    ensures var raw := Encode([imm, a, b, op], ITYPE);
            && Imm16(raw) == imm % 0x1_0000 && Rt(raw) == a % 0x20 && Rs(raw) == b % 0x20 && Op(raw) == op % 0x40
  {
    hide Pow2, Keep, Imm16, Rt, Rs, Op, Pack, Unpack;
    Pow2Table();
    var fields := [imm, a, b, op];
    var raw := Encode(fields, ITYPE);
    UnpackPack(fields, ITYPE);
    ITypeView(raw);
    SplitAt(imm, 16, 0x1_0000);
    SplitAt(a, 5, 0x20);
    SplitAt(b, 5, 0x20);
    SplitAt(op, 6, 0x40);
    assert Unpack(raw, ITYPE)[0] == Imm16(raw) && Unpack(raw, ITYPE)[1] == Rt(raw);
    assert Unpack(raw, ITYPE)[2] == Rs(raw) && Unpack(raw, ITYPE)[3] == Op(raw);
  }

  /** An R-type word is classified as one whatever its function, and reads its arguments back. */
  lemma RTypeDecodes(func: Byte, rd: Byte, rs: Byte, rt: Byte, shamt: Byte)
    ensures var raw := Encode([func, shamt, rd, rt, rs, 0], RTYPE);
            && GetType(raw) == Some(RType)
            && Func(raw) == func % 0x40 && Shamt(raw) == shamt % 0x20
            && Rd(raw) == rd % 0x20 && Rt(raw) == rt % 0x20 && Rs(raw) == rs % 0x20
  {
    hide Encode;
    SixFields(func, shamt, rd, rt, rs, 0);
  }

  /** Every I-type opcode gives an I-type word, except that POP66 and POP76 with a non-zero rs have the
      long immediate. */
  lemma ITypeDecodes(op: Byte, rt: Byte, rs: Byte, imm: Bits16)
    requires IsITypeOpcode(op)
    ensures var raw := Encode([imm, rt, rs, op], ITYPE);
            && GetType(raw) == Some(if (op == 54 || op == 62) && rs % 0x20 != 0 then LongImmIType else IType)
            && Imm16(raw) == imm && Rt(raw) == rt % 0x20 && Rs(raw) == rs % 0x20 && Op(raw) == op
            && Imm21(raw) == imm + 0x1_0000 * (rt % 0x20)
  {
    hide Encode, Imm16, Rt, Rs, Op, Imm21;
    FourFields(imm, rt, rs, op);
    var raw := Encode([imm, rt, rs, op], ITYPE);
    assert Imm21(raw) == Imm16(raw) + 0x1_0000 * Rt(raw) by { LongViewSplits(raw); }
  }

  lemma LongViewSplits(raw: Word)
    ensures Imm21(raw) == Imm16(raw) + 0x1_0000 * Rt(raw)
  {
    var h := raw / 0x1_0000;
    DivUnique(raw, 0x20_0000, h / 0x20, 0x1_0000 * (h % 0x20) + raw % 0x1_0000);
  }

  lemma TwoFields(address: nat, op: nat)
    ensures var raw := Encode([address, op], JTYPE);
            Imm26(raw) == address % 0x400_0000 && Op(raw) == op % 0x40
  {
    hide Pow2, Keep, Imm26, Op, Pack, Unpack;
    Pow2Table();
    var raw := Encode([address, op], JTYPE);
    UnpackPack([address, op], JTYPE);
    JTypeView(raw);
    SplitAt(address, 26, 0x400_0000);
    SplitAt(op, 6, 0x40);
    assert Unpack(raw, JTYPE)[0] == Imm26(raw) && Unpack(raw, JTYPE)[1] == Op(raw);
  }

  lemma ThreeFields(imm: nat, rs: nat, op: nat)
    ensures var raw := Encode([imm, rs, op], LONGIMM_ITYPE);
            Imm21(raw) == imm % 0x20_0000 && Rs(raw) == rs % 0x20 && Op(raw) == op % 0x40
  {
    hide Pow2, Keep, Imm21, Rs, Op, Pack, Unpack;
    Pow2Table();
    var fields := [imm, rs, op];
    var raw := Encode(fields, LONGIMM_ITYPE);
    UnpackPack(fields, LONGIMM_ITYPE);
    LongImmView(raw);
    SplitAt(imm, 21, 0x20_0000);
    SplitAt(rs, 5, 0x20);
    SplitAt(op, 6, 0x40);
    assert Unpack(raw, LONGIMM_ITYPE)[0] == Imm21(raw) && Unpack(raw, LONGIMM_ITYPE)[1] == Rs(raw);
    assert Unpack(raw, LONGIMM_ITYPE)[2] == Op(raw);
  }

  /** POP66 and POP76 words in the long-immediate layout: what they hold reads back, they are classified as
      long-immediate exactly when rs is not 0, and the I-type layout of the same word splits the immediate into
      its own immediate and rt. */
  lemma LongImmDecodes(op: Byte, rs: Byte, imm: Bits21)
    requires op == 54 || op == 62
    ensures var raw := Encode([imm, rs, op], LONGIMM_ITYPE);
            && Unpack(raw, LONGIMM_ITYPE) == [imm, rs % 0x20, op]
            && Imm21(raw) == imm && Rs(raw) == rs % 0x20 && Op(raw) == op
            && GetType(raw) == Some(if rs % 0x20 != 0 then LongImmIType else IType)
            && Unpack(raw, ITYPE) == [imm % 0x1_0000, imm / 0x1_0000, rs % 0x20, op]
  {
    hide Encode, Unpack, Rs, Op, Imm21, Imm16, Rt;
    var raw := Encode([imm, rs, op], LONGIMM_ITYPE);
    ThreeFields(imm, rs, op);
    LongImmView(raw);
    ITypeView(raw);
    LongViewSplits(raw);
  }

  lemma JTypeDecodes(op: Byte, address: Word)
    requires IsJTypeOpcode(op)
    ensures var raw := Encode([address, op], JTYPE);
            GetType(raw) == Some(JType) && Imm26(raw) == address % 0x400_0000 && Op(raw) == op
  {
    hide Encode, Imm26, Op;
    TwoFields(address, op);
  }

  lemma FpuDecodes(op: Byte, a: Byte, b: Byte, c: Byte, d: Byte, offset: Bits16)
    ensures IsFpuFormat(op) ==>
      var raw := Encode([d, c, b, a, op, 17], FPU_RTYPE);
      && GetType(raw) == Some(FpuRType) && Rs(raw) == op && Rt(raw) == a % 0x20 && Rd(raw) == b % 0x20
      && Shamt(raw) == c % 0x20 && Func(raw) == d % 0x40
    ensures IsFpuBranch(op) ==>
      var raw := Encode([offset, a, op, 17], FPU_BTYPE);
      GetType(raw) == Some(FpuBType) && Rs(raw) == op && Rt(raw) == a % 0x20 && Imm16(raw) == offset
  {
    hide Encode;
    SixFields(d, c, b, a, op, 17);
    FourFields(offset, a, op, 17);
  }

  lemma FiveFields(a: nat, b: nat, c: nat, d: nat, e: nat)
    ensures var raw := Encode([a, b, c, d, e], FPU_TTYPE);
            && raw % 0x800 == a % 0x800 && Rd(raw) == b % 0x20 && Rt(raw) == c % 0x20
            && Rs(raw) == d % 0x20 && Op(raw) == e % 0x40
  {
    hide Pow2, Keep, Rs, Rt, Rd, Op, Pack, Unpack;
    Pow2Table();
    var fields := [a, b, c, d, e];
    var raw := Encode(fields, FPU_TTYPE);
    UnpackPack(fields, FPU_TTYPE);
    FpuTTypeView(raw);
    SplitAt(a, 11, 0x800);
    SplitAt(b, 5, 0x20);
    SplitAt(c, 5, 0x20);
    SplitAt(d, 5, 0x20);
    SplitAt(e, 6, 0x40);
    assert Unpack(raw, FPU_TTYPE)[0] == raw % 0x800 && Unpack(raw, FPU_TTYPE)[1] == Rd(raw);
    assert Unpack(raw, FPU_TTYPE)[2] == Rt(raw) && Unpack(raw, FPU_TTYPE)[3] == Rs(raw);
    assert Unpack(raw, FPU_TTYPE)[4] == Op(raw);
  }

  lemma FpuTransferDecodes(op: Byte, rt: Byte, fs: Byte)
    requires IsFpuTransfer(op)
    ensures var raw := Encode([0, fs, rt, op, 17], FPU_TTYPE);
            && GetType(raw) == Some(FpuTType)
            && Rs(raw) == op && Rt(raw) == rt % 0x20 && Rd(raw) == fs % 0x20 && raw % 0x800 == 0
  {
    hide Encode, Rs, Rt, Rd, Op;
    FiveFields(0, fs, rt, op, 17);
  }

  lemma Special3Decodes(func: Byte, extra: Byte, rd: Byte, rs: Byte, rt: Byte)
    requires func in {0, 4, 32}
    ensures var raw := Encode([func, extra, rd, rt, rs, 31], SPECIAL3);
            && GetType(raw) == Some(if func == 32 then Special3Bshfl
                                    else if func == 0 then Special3Ext else Special3Ins)
            && Shamt(raw) == extra % 0x20 && Rd(raw) == rd % 0x20 && Rt(raw) == rt % 0x20 && Rs(raw) == rs % 0x20
  {
    hide Encode;
    SixFields(func, extra, rd, rt, rs, 31);
  }

  lemma RegimmDecodes(op: Byte, rs: Byte, imm: Bits16)
    ensures var raw := Encode([imm, op, rs, 1], REGIMM_ITYPE);
            && GetType(raw) == Some(RegimmIType)
            && Rt(raw) == op % 0x20 && Rs(raw) == rs % 0x20 && Imm16(raw) == imm
  {
    hide Encode;
    FourFields(imm, op, rs, 1);
  }

  lemma UpperHalfShifted(raw: Word)
    ensures raw / 0x8_0000 == raw / 0x1_0000 / 8
  {}

  lemma TwoOfFive(h: nat)
    ensures h / 8 % 4 == h % 0x20 / 8
  {
    assert h / 8 == 4 * (h / 0x20) + h % 0x20 / 8;
  }

  /** The two views of a PC-relative function field. */
  lemma PcRelFunctions(raw: Word)
    ensures PcFunc1(raw) == Rt(raw) / 8
  {
    UpperHalfShifted(raw);
    TwoOfFive(raw / 0x1_0000);
  }

  lemma PcRelFields(imm: nat, func: nat, rs: nat)
    ensures var raw := Encode([imm, func, rs, 59], PCREL_TYPE1);
            Imm19(raw) == imm % 0x8_0000 && PcFunc1(raw) == func % 4 && Rs(raw) == rs % 0x20 && Op(raw) == 59
  {
    hide Pow2, Keep, Imm19, PcFunc1, Rs, Op, Pack, Unpack;
    Pow2Table();
    var fields := [imm, func, rs, 59];
    var raw := Encode(fields, PCREL_TYPE1);
    UnpackPack(fields, PCREL_TYPE1);
    PcRelType1View(raw);
    SplitAt(imm, 19, 0x8_0000);
    SplitAt(func, 2, 4);
    SplitAt(rs, 5, 0x20);
    SplitAt(59, 6, 0x40);
    assert Unpack(raw, PCREL_TYPE1)[0] == Imm19(raw) && Unpack(raw, PCREL_TYPE1)[1] == PcFunc1(raw);
    assert Unpack(raw, PCREL_TYPE1)[2] == Rs(raw) && Unpack(raw, PCREL_TYPE1)[3] == Op(raw);
  }

  lemma PcRelType1Decodes(rs: Byte, func: Byte, imm: Word)
    requires func <= 1
    ensures var raw := Encode([imm, func, rs, 59], PCREL_TYPE1);
            && GetType(raw) == Some(PcRelType1)
            && Imm19(raw) == imm % 0x8_0000 && PcFunc1(raw) == func && Rs(raw) == rs % 0x20
  {
    hide Encode, Imm19, PcFunc1, Rs, Op;
    PcRelFields(imm, func, rs);
  }

  lemma PcRelType2Decodes(rs: Byte, func: Byte, imm: Bits16)
    requires func == 30 || func == 31
    ensures var raw := Encode([imm, func, rs, 59], PCREL_TYPE2);
            && GetType(raw) == Some(PcRelType2)
            && Imm16(raw) == imm && Rt(raw) == func && Rs(raw) == rs % 0x20
  {
    hide Encode, Imm16, PcFunc1, Rs, Rt, Op;
    FourFields(imm, func, rs, 59);
    PcRelFunctions(Encode([imm, func, rs, 59], PCREL_TYPE2));
  }
}

/** Laws of the values the instructions compute. */
module Arithmetic {
  import opened Words
  import opened Instructions
  import opened Isa
  import opened BitTricks

  // ---- Multiplication ----

  lemma UnsignedHalves(n: int)
    requires 0 <= n < TWO64
    ensures Wrap(n / TWO32) * TWO32 + Wrap(n) == n
  {}

  lemma SignedHalves(n: int)
    requires -0x4000_0000 * TWO32 <= n <= 0x4000_0000 * TWO32
    ensures Signed(Wrap(n / TWO32)) * TWO32 + Wrap(n) == n
  {
    SignedOfWrap(n / TWO32);
  }

  /** MUH:MUL and MUHU:MULU are the exact 64-bit products. */
  lemma ProductsReassemble(a: Word, b: Word)
    ensures HighUnsigned(a, b) * TWO32 + LowProduct(a, b) == a * b
    ensures Signed(HighSigned(a, b)) * TWO32 + LowProduct(a, b) == Signed(a) * Signed(b)
  {
    hide Wrap, Signed;
    ProductRange(a, b);
    UnsignedHalves(a * b);
    SignedRange(a);
    SignedRange(b);
    SignedProductRange(Signed(a), Signed(b));
    SignedHalves(Signed(a) * Signed(b));
    MulMeaning(a, b);
  }

  /** MUH is MUHU corrected for the sign of each operand. */
  lemma HighSignedCorrection(a: Word, b: Word)
    ensures HighSigned(a, b)
         == Wrap(HighUnsigned(a, b) - (if Signed(a) < 0 then b else 0) - (if Signed(b) < 0 then a else 0))
  {
    hide HighSigned, HighUnsigned, LowProduct, Wrap;
    ProductsReassemble(a, b);
    var i, j := if Signed(a) < 0 then 1 else 0, if Signed(b) < 0 then 1 else 0;
    assert Signed(a) * Signed(b) == a * b - i * b * TWO32 - j * a * TWO32 + i * j * TWO32 * TWO32;
    var d := HighUnsigned(a, b) - i * b - j * a;
    assert Signed(HighSigned(a, b)) == d + i * j * TWO32;
    WrapSigned(HighSigned(a, b));
    WrapCongruent(Signed(HighSigned(a, b)), d, i * j);
  }

  lemma WrapSigned(w: Word)
    ensures Wrap(Signed(w)) == w
  {}

  // ---- Addition ----

  lemma SignedWrapIff(n: int)
    ensures Signed(Wrap(n)) == n <==> -0x8000_0000 <= n < 0x8000_0000
  {}

  lemma WrappedSum(a: Word, b: Word)
    ensures Signed(Wrap(a + b)) == Signed(a) + Signed(b) <==> !SumOverflows(a, b)
    ensures Signed(Wrap(a - b)) == Signed(a) - Signed(b) <==> -0x8000_0000 <= Signed(a) - Signed(b) < 0x8000_0000
  {
    hide Wrap, Signed;
    SumSigned(a, b);
    SignedWrapIff(Signed(a) + Signed(b));
    SignedWrapIff(Signed(a) - Signed(b));
  }

  /** ADD and SUB never trap: they write the exact signed result when it is in range, and otherwise write
      another one. */
  lemma AddWrapsIff(env: Env, raw: Word, gpr: Gpr, pc: Word, mem: seq<Byte>)
    requires Op(raw) == 0 && (Func(raw) == 32 || Func(raw) == 34)
    ensures var a: int, b: int := gpr[Rs(raw)], gpr[Rt(raw)];
            var v := if Func(raw) == 32 then Wrap(a + b) else Wrap(a - b);
            var exact := if Func(raw) == 32 then Signed(a) + Signed(b) else Signed(a) - Signed(b);
            && EffectOf(env, raw, gpr, pc, mem) == Set(Rd(raw), v)
            && (Signed(v) == exact <==> -0x8000_0000 <= exact < 0x8000_0000)
  {
    hide Op, Func, Rs, Rt, Rd, Shamt, Wrap, Signed;
    WrappedSum(gpr[Rs(raw)], gpr[Rt(raw)]);
  }

  lemma AddWord()
    ensures Disassemble(0x0043_0820) == Some(Alu(Add, 1, 2, 3))
  {}

  /** ADD $1, $2, $3 of INT32_MAX and 1 writes INT32_MIN. */
  lemma AddWrapsCounterexample(env: Env, gpr: Gpr, pc: Word, mem: seq<Byte>)
    requires gpr[2] == 0x7FFF_FFFF && gpr[3] == 1
    ensures EffectOf(env, 0x0043_0820, gpr, pc, mem) == Set(1, 0x8000_0000) && Signed(0x8000_0000) == -0x8000_0000
  {
    hide Disassemble;
    AddWord();
  }

  // ---- Division ----

  lemma NatDivision(x: nat, y: nat)
    requires y > 0
    ensures x == x / y * y + x % y && 0 <= x % y < y && 0 <= x / y <= x
  {
    MulMonotone(x / y, y, 1);
  }

  lemma Signs(q: int, y: int)
    ensures -q * -y == q * y && -q * y == -(q * y) && q * -y == -(q * y)
  {}

  lemma TruncatedDivision(a: int, b: int)
    requires b != 0
    ensures a == TruncDiv(a, b) * b + TruncMod(a, b)
    ensures Abs(TruncMod(a, b)) < Abs(b)
    ensures TruncMod(a, b) == 0 || (TruncMod(a, b) < 0) == (a < 0)
    ensures Abs(TruncDiv(a, b)) <= Abs(a)
  {
    NatDivision(Abs(a), Abs(b));
    Signs(Abs(a) / Abs(b), Abs(b));
  }

  /** DIV and MOD are the two halves of one truncated division. */
  lemma DivisionLaw(host: Host, a: Word, b: Word)
    requires b != 0 && !DivideOverflows(a, b)
    ensures var q, r := Signed(Quotient(host, a, b)), Signed(Remainder(host, a, b));
            && Signed(a) == q * Signed(b) + r
            && Abs(r) < Abs(Signed(b))
            && (r == 0 || (r < 0) == (Signed(a) < 0))
  {
    hide TruncDiv, TruncMod;
    TruncatedDivision(Signed(a), Signed(b));
    var q := TruncDiv(Signed(a), Signed(b));
    if q == 0x8000_0000 { OnlyOverflow(a, b); }
    SignedOfWrap(q);
    SignedOfWrap(TruncMod(Signed(a), Signed(b)));
  }

  lemma OnlyOverflow(a: Word, b: Word)
    requires b != 0 && TruncDiv(Signed(a), Signed(b)) == 0x8000_0000
    ensures DivideOverflows(a, b)
  {
    var x, y := Abs(Signed(a)), Abs(Signed(b));
    NatDivision(x, y);
    MulMonotone(0x8000_0000, y, if y >= 2 then 2 else 1);
  }

  lemma UnsignedDivisionLaw(a: Word, b: Word)
    requires b != 0
    ensures a == QuotientUnsigned(a, b) * b + RemainderUnsigned(a, b) && RemainderUnsigned(a, b) < b
  {
    assert a == (a / b) * b + a % b;
    MulMonotone(a / b, b, 1);
  }

  // ---- Arithmetic shifts ----

  lemma {:induction false} DivPow2Range(x: int, s: nat)
    requires -0x8000_0000 <= x < 0x8000_0000
    ensures -0x8000_0000 <= x / Pow2(s) < 0x8000_0000
    decreases s
  {
    if s > 0 {
      DivPow2Range(x / 2, s - 1);
      DivDiv(x, 2, Pow2(s - 1));
    }
  }

  lemma DivDiv(x: int, a: nat, b: nat)
    requires a > 0 && b > 0
    ensures a * b > 0 && x / (a * b) == x / a / b
  {
    MulMonotone(a, b, 1);
    var y := x / a;
    assert x == y * a + x % a;
    assert y == y / b * b + y % b;
    MulMonotone(a, b - 1, y % b);
    assert (y / b * b + y % b) * a == y / b * (a * b) + y % b * a;
    DivUnique(x, a * b, y / b, y % b * a + x % a);
  }

  /** SRA rounds the signed value down, and shifts add up. */
  lemma ArithmeticShiftLaws(x: Word, a: nat, b: nat)
    ensures Signed(ArithmeticShift(x, a)) == Signed(x) / Pow2(a)
    ensures ArithmeticShift(ArithmeticShift(x, a), b) == ArithmeticShift(x, a + b)
  {
    hide Pow2;
    DivPow2Range(Signed(x), a);
    SignedOfWrap(Signed(x) / Pow2(a));
    Pow2Add(a, b);
    DivDiv(Signed(x), Pow2(a), Pow2(b));
  }

  // ---- Rotations ----

  /** Bit i of a rotation is bit i + s of the operand, counted around the word. */
  lemma RotateRightAt(x: Word, s: nat, i: nat)
    requires s <= 32 && i < 32
    ensures Bit(RotateRight(x, s), i) == Bit(x, (i + s) % 32)
  {
    hide Bit, Lift, Drop, Keep, RotateRight;
    RotateRightJoins(x, s);
    BitOfJoin(Keep(x, s), Drop(x, s), 32 - s, i);
    if i < 32 - s {
      BitOfDrop(x, s, i);
    } else {
      BitOfKeep(x, s, i - (32 - s));
    }
  }

  lemma ModAdd(x: nat, y: nat)
    ensures (x % 32 + y) % 32 == (x + y) % 32
  {}

  lemma RotationsComposeAt(x: Word, a: nat, b: nat, i: nat)
    requires a <= 32 && b <= 32 && i < 32
    ensures Bit(RotateRight(RotateRight(x, a), b), i) == Bit(x, (i + a + b) % 32)
         == Bit(RotateRight(x, (a + b) % 32), i)
  {
    hide RotateRight, Bit;
    RotateRightAt(RotateRight(x, a), b, i);
    RotateRightAt(x, a, (i + b) % 32);
    RotateRightAt(x, (a + b) % 32, i);
    ModAdd(i + b, a);
    ModAdd(a + b, i);
  }

  /** Rotations compose by adding their amounts around the word; s and 32 - s cancel. */
  lemma RotationsCompose(x: Word, a: nat, b: nat)
    requires a <= 32 && b <= 32
    ensures RotateRight(RotateRight(x, a), b) == RotateRight(x, (a + b) % 32)
    ensures a + b == 32 ==> RotateRight(RotateRight(x, a), b) == x
  {
    hide RotateRight, Bit;
    var y := RotateRight(RotateRight(x, a), b);
    forall i | 0 <= i < 32
      ensures Bit(y, i) == Bit(RotateRight(x, (a + b) % 32), i) && (a + b == 32 ==> Bit(y, i) == Bit(x, i))
    {
      RotationsComposeAt(x, a, b, i);
    }
    WordExtensional(y, RotateRight(x, (a + b) % 32));
    if a + b == 32 { WordExtensional(y, x); }
  }

  lemma {:induction false} PopCountJoin(hi: nat, lo: nat, k: nat)
    requires lo < Pow2(k)
    ensures PopCount(Lift(hi, k) + lo) == PopCount(hi) + PopCount(lo)
  {
    if k > 0 {
      var x := Lift(hi, k) + lo;
      assert x % 2 == lo % 2 && x / 2 == Lift(hi, k - 1) + lo / 2;
      PopCountJoin(hi, lo / 2, k - 1);
      PopCountHalf(x);
      PopCountHalf(lo);
    }
  }

  lemma PopCountHalf(x: nat)
    ensures PopCount(x) == x % 2 + PopCount(x / 2)
  {}

  lemma RotationKeepsPopCount(x: Word, s: nat)
    requires s <= 32
    ensures PopCount(RotateRight(x, s)) == PopCount(x)
  {
    hide PopCount, RotateRight, Lift, Keep, Drop;
    RotateRightJoins(x, s);
    PopCountJoin(Keep(x, s), Drop(x, s), 32 - s);
    SplitJoin(x, s);
    PopCountJoin(Drop(x, s), Keep(x, s), s);
  }

  // ---- Leading bits ----

  /** CLZ by its bounds, CLO by its bits: the top count bits are ones and the one below is not. */
  lemma LeadingBits(x: Word, k: nat)
    requires k <= 32
    ensures LeadingZeros(x) == k <==> x < Pow2(32 - k) && (k < 32 ==> Pow2(31 - k) <= x)
    ensures LeadingZeros(Not(x)) == k <==>
            OnesFromBit(x, 32 - k) && (k < 32 ==> !Bit(x, 31 - k))
  {
    hide Bit, Pow2;
    BitLengthExact(x, 32 - k);
    BitLengthExact(Not(x), 32 - k);
    OnesAbove(x, 32 - k);
    if k < 32 {
      BitOfNot(x, 31 - k);
      if Not(x) < Pow2(32 - k) { TopBitOf(Not(x), 31 - k); }
    }
  }

  predicate OnesFromBit(x: Word, k: nat) {
    forall i :: k <= i < 32 ==> Bit(x, i)
  }

  lemma OnesAbove(x: Word, k: nat)
    requires k <= 32
    ensures Not(x) < Pow2(k) <==> OnesFromBit(x, k)
  {
    if Not(x) < Pow2(k) {
      forall i | k <= i < 32
        ensures Bit(x, i)
      {
        BitAbove(Not(x), k, i);
        BitOfNot(x, i);
      }
    } else if OnesFromBit(x, k) {
      var y := Keep(Not(x), k);
      forall i | 0 <= i < 32
        ensures Bit(Not(x), i) == Bit(y, i)
      {
        BitOfKeep(Not(x), k, i);
        BitOfNot(x, i);
      }
      WordExtensional(Not(x), y);
    }
  }

  lemma {:induction false} TopBitOf(x: nat, k: nat)
    requires x < Pow2(k + 1)
    ensures Bit(x, k) <==> x >= Pow2(k)
  {
    if k > 0 { TopBitOf(x / 2, k - 1); }
  }

  // ---- Byte and bit order ----

  function OtherByte(i: nat): nat {
    if i % 16 < 8 then i + 8 else i - 8
  }

  /** Bit i of a halfword byte swap comes from the other byte of its halfword. */
  lemma SwapHalfwordBytesAt(x: Word, i: nat)
    requires i < 32
    ensures Bit(SwapHalfwordBytes(x), i) == Bit(x, OtherByte(i))
  {
    hide Bit, Lift, Keep, Drop, And, Or, Pow2, Shl, Shr, SwapHalfwordBytes;
    WsbhMeaning(x);
    var a, b, c, d := And(x, 0xFF), And(x, 0xFF00), And(x, 0xFF_0000), And(x, 0xFF00_0000);
    SwapTermsAt(x, i);
    BitOfOr(Or(Or(Shl(a, 8), Shr(b, 8)), Shl(c, 8)), Shr(d, 8), i);
    BitOfOr(Or(Shl(a, 8), Shr(b, 8)), Shl(c, 8), i);
    BitOfOr(Shl(a, 8), Shr(b, 8), i);
  }

  lemma SwapTermsAt(x: Word, i: nat)
    requires i < 32
    ensures Bit(Shl(And(x, 0xFF), 8), i) == (8 <= i < 16 && Bit(x, i - 8))
    ensures Bit(Shr(And(x, 0xFF00), 8), i) == (i < 8 && Bit(x, i + 8))
    ensures Bit(Shl(And(x, 0xFF_0000), 8), i) == (24 <= i && Bit(x, i - 8))
    ensures Bit(Shr(And(x, 0xFF00_0000), 8), i) == (16 <= i < 24 && Bit(x, i + 8))
  {
    hide Bit, And, Shl, Shr;
    BitOfShl(And(x, 0xFF), 8, i);
    BitOfShl(And(x, 0xFF_0000), 8, i);
    BitOfShr(And(x, 0xFF00), 8, i);
    BitOfShr(And(x, 0xFF00_0000), 8, i);
    if i >= 8 {
      ByteMaskAt(x, 0, 0xFF, i - 8);
      ByteMaskAt(x, 16, 0xFF_0000, i - 8);
    }
    ByteMaskAt(x, 8, 0xFF00, i + 8);
    ByteMaskAt(x, 24, 0xFF00_0000, i + 8);
  }

  lemma BitOfShr(x: Word, s: nat, i: nat)
    ensures Bit(Shr(x, s), i) == Bit(x, i + s)
  {
    BitOfDrop(x, s, i);
  }

  lemma ByteMaskAt(x: Word, l: nat, mask: Word, i: nat)
    requires (l == 0 && mask == 0xFF) || (l == 8 && mask == 0xFF00) || (l == 16 && mask == 0xFF_0000)
             || (l == 24 && mask == 0xFF00_0000)
    ensures Bit(And(x, mask), i) == (l <= i < l + 8 && Bit(x, i))
  {
    hide Bit, And, Keep, Drop, Lift, Pow2;
    Pow2Table();
    SplitAt(0xFF, l, if l == 0 then 1 else if l == 8 then 0x100 else if l == 16 then 0x1_0000 else 0x100_0000);
    FieldFits(x, l, 8);
    AndFieldMask(x, l, 8, mask);
    BitOfLift(Keep(Drop(x, l), 8), l, i);
    if i >= l {
      BitOfKeep(Drop(x, l), 8, i - l);
      BitOfDrop(x, l, i - l);
    }
  }

  lemma MirrorPosition(i: nat)
    ensures Mirror(i) / 8 == i / 8 && Mirror(i) % 8 == 7 - i % 8
  {}

  lemma OtherBytePosition(i: nat)
    requires i < 32
    ensures OtherByte(i) / 8 == (if i / 8 % 2 == 0 then i / 8 + 1 else i / 8 - 1) && OtherByte(i) % 8 == i % 8
  {}

  lemma SamePosition(i: nat, j: nat)
    requires i / 8 == j / 8 && i % 8 == j % 8
    ensures i == j
  {}

  lemma BackAgain(i: nat)
    requires i < 32
    ensures Mirror(i) < 32 && OtherByte(i) < 32 && Mirror(Mirror(i)) == i && OtherByte(OtherByte(i)) == i
  {
    hide Mirror, OtherByte;
    MirrorPosition(i);
    MirrorPosition(Mirror(i));
    SamePosition(Mirror(Mirror(i)), i);
    OtherBytePosition(i);
    OtherBytePosition(OtherByte(i));
    SamePosition(OtherByte(OtherByte(i)), i);
  }

  lemma MirrorOtherByte(i: nat)
    requires i < 32
    ensures OtherByte(Mirror(i)) == Mirror(OtherByte(i))
  {
    hide Mirror, OtherByte;
    BackAgain(i);
    MirrorPosition(i);
    OtherBytePosition(i);
    MirrorPosition(OtherByte(i));
    OtherBytePosition(Mirror(i));
    SamePosition(OtherByte(Mirror(i)), Mirror(OtherByte(i)));
  }

  lemma ByteOrderAt(x: Word, i: nat)
    requires i < 32
    ensures Bit(SwapHalfwordBytes(SwapHalfwordBytes(x)), i) == Bit(x, i)
    ensures Bit(ReverseBytes(ReverseBytes(x)), i) == Bit(x, i)
    ensures Bit(ReverseBytes(SwapHalfwordBytes(x)), i) == Bit(SwapHalfwordBytes(ReverseBytes(x)), i)
  {
    hide Bit, ReverseBytes, SwapHalfwordBytes, OtherByte, Mirror;
    var s, m := OtherByte(i), Mirror(i);
    BackAgain(i);
    MirrorOtherByte(i);
    SwapHalfwordBytesAt(SwapHalfwordBytes(x), i);
    SwapHalfwordBytesAt(x, s);
    ReverseBytesAt(ReverseBytes(x), i);
    ReverseBytesAt(x, m);
    ReverseBytesAt(SwapHalfwordBytes(x), i);
    SwapHalfwordBytesAt(x, m);
    SwapHalfwordBytesAt(ReverseBytes(x), i);
    ReverseBytesAt(x, s);
  }

  /** WSBH and BITSWAP are involutions and commute. */
  lemma ByteOrderLaws(x: Word)
    ensures SwapHalfwordBytes(SwapHalfwordBytes(x)) == x
    ensures ReverseBytes(ReverseBytes(x)) == x
    ensures ReverseBytes(SwapHalfwordBytes(x)) == SwapHalfwordBytes(ReverseBytes(x))
  {
    hide ReverseBytes, SwapHalfwordBytes;
    forall i | 0 <= i < 32
      ensures Bit(SwapHalfwordBytes(SwapHalfwordBytes(x)), i) == Bit(x, i)
      ensures Bit(ReverseBytes(ReverseBytes(x)), i) == Bit(x, i)
      ensures Bit(ReverseBytes(SwapHalfwordBytes(x)), i) == Bit(SwapHalfwordBytes(ReverseBytes(x)), i)
    {
      ByteOrderAt(x, i);
    }
    WordExtensional(SwapHalfwordBytes(SwapHalfwordBytes(x)), x);
    WordExtensional(ReverseBytes(ReverseBytes(x)), x);
    WordExtensional(ReverseBytes(SwapHalfwordBytes(x)), SwapHalfwordBytes(ReverseBytes(x)));
  }

  /** ALIGN takes its low bits from the top of the second word. */
  lemma AlignAt(hi: Word, lo: Word, s: nat, i: nat)
    requires s <= 32 && i < 32
    ensures Bit(AlignShift(hi, lo, s), i) == if i < s then Bit(lo, 32 - s + i) else Bit(hi, i - s)
  {
    hide Bit, Lift, AlignShift;
    AlignJoins(hi, lo, s);
    BitOfJoin(Keep(hi, 32 - s), Drop(lo, 32 - s), s, i);
    if i < s { BitOfDrop(lo, 32 - s, i); } else { BitOfKeep(hi, 32 - s, i - s); }
  }

  // ---- Bit-fields ----

  /** EXT reads back what INS wrote; INS of a field's own EXT changes nothing; INS changes no other bit. */
  lemma InsertExtract(x: Word, v: Word, lsb: nat, size: nat)
    requires lsb + size <= 32
    ensures ExtractField(InsertField(x, v, lsb, size), lsb, size) == v % Pow2(size)
    ensures InsertField(x, ExtractField(x, lsb, size), lsb, size) == x
    ensures forall i :: 0 <= i < 32 && !(lsb <= i < lsb + size) ==> Bit(InsertField(x, v, lsb, size), i) == Bit(x, i)
  {
    hide Bit, Lift, Keep, Drop, InsertField;
    InsertFieldJoins(x, v, lsb, size);
    JoinSplit(Lift(Drop(x, lsb + size), size) + Keep(v, size), Keep(x, lsb), lsb);
    JoinSplit(Drop(x, lsb + size), Keep(v, size), size);
    SplitIsDivMod(v, size);
    forall i | 0 <= i < 32
      ensures !(lsb <= i < lsb + size) ==> Bit(InsertField(x, v, lsb, size), i) == Bit(x, i)
      ensures Bit(InsertField(x, ExtractField(x, lsb, size), lsb, size), i) == Bit(x, i)
    {
      InsertFieldAt(x, v, lsb, size, i);
      InsertFieldAt(x, ExtractField(x, lsb, size), lsb, size, i);
      if lsb <= i < lsb + size {
        BitOfKeep(Drop(x, lsb), size, i - lsb);
        BitOfDrop(x, lsb, i - lsb);
      }
    }
    WordExtensional(InsertField(x, ExtractField(x, lsb, size), lsb, size), x);
  }

  /** INSs into disjoint fields commute; into the same field, the last one wins. */
  lemma InsertsCommute(x: Word, v: Word, l: nat, n: nat, v': Word, l': nat, n': nat)
    requires l + n <= 32 && l' + n' <= 32
    ensures l + n <= l' || l' + n' <= l ==>
            InsertField(InsertField(x, v, l, n), v', l', n') == InsertField(InsertField(x, v', l', n'), v, l, n)
    ensures l' <= l && l + n <= l' + n' ==>
            InsertField(InsertField(x, v, l, n), v', l', n') == InsertField(x, v', l', n')
  {
    hide Bit, InsertField;
    var a, b := InsertField(InsertField(x, v, l, n), v', l', n'), InsertField(InsertField(x, v', l', n'), v, l, n);
    forall i | 0 <= i < 32
      ensures l + n <= l' || l' + n' <= l ==> Bit(a, i) == Bit(b, i)
      ensures l' <= l && l + n <= l' + n' ==> Bit(a, i) == Bit(InsertField(x, v', l', n'), i)
    {
      InsertFieldAt(x, v, l, n, i);
      InsertFieldAt(x, v', l', n', i);
      InsertFieldAt(InsertField(x, v, l, n), v', l', n', i);
      InsertFieldAt(InsertField(x, v', l', n'), v, l, n, i);
    }
    if l + n <= l' || l' + n' <= l { WordExtensional(a, b); }
    if l' <= l && l + n <= l' + n' { WordExtensional(a, InsertField(x, v', l', n')); }
  }
}

/** The branch-free expressions and the loops of the handlers, each proved against its integer meaning. */
module BitTricks {
  import opened Words
  import opened Isa

  // ---- Shared steps ----

  lemma {:induction false} LiftAdd(x: nat, y: nat, s: nat)
    ensures Lift(x + y, s) == Lift(x, s) + Lift(y, s)
  {
    if s > 0 { LiftAdd(x, y, s - 1); }
  }

  lemma {:induction false} LiftLift(x: nat, a: nat, b: nat)
    ensures Lift(Lift(x, a), b) == Lift(x, a + b)
  {
    if b > 0 { LiftLift(x, a, b - 1); }
  }

  lemma {:induction false} LiftOne(k: nat)
    ensures Lift(1, k) == Pow2(k) && Lift(0, k) == 0
  {
    if k > 0 { LiftOne(k - 1); }
  }

  lemma LiftRegroup(x: nat, s: nat)
    requires s <= 32
    ensures Lift(x, s) == Lift(Drop(x, 32 - s), 32) + Lift(Keep(x, 32 - s), s)
  {
    var hi, lo := Drop(x, 32 - s), Keep(x, 32 - s);
    SplitJoin(x, 32 - s);
    LiftAdd(Lift(hi, 32 - s), lo, s);
    LiftLift(hi, 32 - s, s);
  }

  /** A left shift by s pushes the top s bits past the word and keeps the others. */
  lemma LiftSplit(x: Word, s: nat)
    requires s <= 32
    ensures Lift(Keep(x, 32 - s), s) < 0x1_0000_0000
    ensures Lift(x, s) == Drop(x, 32 - s) * 0x1_0000_0000 + Lift(Keep(x, 32 - s), s)
    ensures Shl(x, s) == Lift(Keep(x, 32 - s), s)
  {
    Pow2At32();
    LiftRegroup(x, s);
    SplitAt(Drop(x, 32 - s), 32, 0x1_0000_0000);
    LiftOne(s);
    LiftBound(Keep(x, 32 - s), 0, s, 32 - s);
    DivUnique(Lift(x, s), 0x1_0000_0000, Drop(x, 32 - s), Lift(Keep(x, 32 - s), s));
  }

  /** A run of ones from bit n up. */
  lemma OnesFrom(n: nat)
    requires n < 32
    ensures Shl(ALL_ONES, n) == 0x1_0000_0000 - Pow2(n) == Lift(Pow2(32 - n) - 1, n)
  {
    hide Pow2, Lift, Wrap;
    Pow2Table();
    Pow2Monotone(n, 31);
    Pow2Split(n);
    LiftIsMul(Pow2(32 - n) - 1, n);
    LiftIsMul(ALL_ONES, n);
    WrapCongruent(ALL_ONES * Pow2(n), 0x1_0000_0000 - Pow2(n), Pow2(n) - 1);
    WrapSmall(0x1_0000_0000 - Pow2(n));
  }

  lemma OrAssoc(x: Word, y: Word, z: Word)
    ensures Or(Or(x, y), z) == Or(x, Or(y, z))
  {
    forall i | 0 <= i < 32
      ensures Bit(Or(Or(x, y), z), i) == Bit(Or(x, Or(y, z)), i)
    {
      BitOfOr(Or(x, y), z, i);
      BitOfOr(x, y, i);
      BitOfOr(x, Or(y, z), i);
      BitOfOr(y, z, i);
    }
    WordExtensional(Or(Or(x, y), z), Or(x, Or(y, z)));
  }

  // ---- Sign extension ----

  /** Ones above bit n multiplied by the sign bit, OR-ed with the value. */
  function SignExtend(v: Word, n: nat): Word
    requires 0 < n < 32
  {
    Or(Wrap(Shl(ALL_ONES, n) * And(Shr(v, n - 1), 1)), v)
  }

  lemma SignBit(v: Word, n: nat)
    requires 0 < n <= 32 && v < Pow2(n)
    ensures And(Shr(v, n - 1), 1) == if v < Pow2(n - 1) then 0 else 1
  {
    hide And, Pow2;
    HalvePow2(n);
    LiftOne(n - 1);
    if v < Pow2(n - 1) {
      JoinSplit(0, v, n - 1);
      AndOne(0);
    } else {
      JoinSplit(1, v - Pow2(n - 1), n - 1);
      AndOne(1);
    }
  }

  lemma MulBit(x: Word, e: Word)
    requires e <= 1
    ensures Wrap(x * e) == if e == 0 then 0 else x
  {}

  lemma SignExtendMeaning(v: Word, n: nat)
    requires 0 < n < 32 && v < Pow2(n)
    ensures SignExtend(v, n) == Wrap(SignedField(v, n))
  {
    hide And, Or, Keep, Drop, Pow2, Shl, Shr, Wrap, Lift;
    Pow2Monotone(n, 31);
    Pow2Table();
    SignBit(v, n);
    WrapSmall(SignedField(v, n));
    MulBit(Shl(ALL_ONES, n), And(Shr(v, n - 1), 1));
    if v < Pow2(n - 1) {
      OrZero(v);
    } else {
      OnesFrom(n);
      OrIsJoin(Pow2(32 - n) - 1, v, n, Shl(ALL_ONES, n), v);
    }
  }

  /** AUI passes an already shifted immediate, whose bit 15 is clear. */
  lemma SignExtendShifted(imm: Word)
    requires imm < 0x1_0000
    ensures SignExtend(Shl(imm, 16), 16) == 0x1_0000 * imm
  {
    hide And, Or, Shr, Shl, Wrap, Pow2;
    Pow2Table();
    ShlBy(imm, 16, 0x1_0000);
    WrapSmall(imm * 0x1_0000);
    ShrBy(0x1_0000 * imm, 15, 0x8000);
    AndOne(2 * imm);
    MulBit(Shl(ALL_ONES, 16), 0);
    OrZero(0x1_0000 * imm);
  }

  // ---- Products ----

  const TWO64: int := 0x1_0000_0000_0000_0000

  /** Conversion of any integer to uint64_t. */
  function Wrap64(n: int): int {
    n % TWO64
  }

  /** The value of a 64-bit pattern as an int64_t. */
  function Signed64(n: int): int {
    if n < 0x8000_0000_0000_0000 then n else n - TWO64
  }

  /** hi_mul<int32_t, int64_t>: a 64-bit multiplication and an arithmetic shift. */
  function HiMulSigned(a: Word, b: Word): Word {
    Wrap(Signed64(Wrap64(Signed(a) * Signed(b))) / TWO32)
  }

  /** hi_mul<uint32_t, uint64_t>. */
  function HiMulUnsigned(a: Word, b: Word): Word {
    Wrap(Wrap64(a * b) / TWO32)
  }

  function MulSigned(a: Word, b: Word): Word {
    Wrap(Signed(a) * Signed(b))
  }

  function MulUnsigned(a: Word, b: Word): Word {
    Wrap(a * b)
  }

  lemma SignedRange(a: Word)
    ensures -0x8000_0000 <= Signed(a) < 0x8000_0000
  {}

  lemma ProductRange(a: Word, b: Word)
    ensures 0 <= a * b < TWO64
  {
    MulMonotone(a, TWO32 - 1, b);
  }

  lemma SignedProductRange(a: int, b: int)
    requires -0x8000_0000 <= a < 0x8000_0000 && -0x8000_0000 <= b < 0x8000_0000
    ensures -0x4000_0000 * TWO32 <= a * b <= 0x4000_0000 * TWO32
  {
    if a >= 0 {
      MulMonotone(a, 0x8000_0000, b);
      MulMonotone(a, b, -0x8000_0000);
    } else {
      MulMonotone(-a, 0x8000_0000, b);
      MulMonotone(-a, b, -0x8000_0000);
      assert a * b == -(-a * b);
    }
  }

  lemma Fits64(n: int)
    ensures 0 <= n < TWO64 ==> Wrap64(n) == n
    ensures -0x4000_0000 * TWO32 <= n <= 0x4000_0000 * TWO32 ==> Signed64(Wrap64(n)) == n
  {}

  /** No product of two words overflows 64 bits, so the high words are exact. */
  lemma HiMulMeaning(a: Word, b: Word)
    ensures HiMulSigned(a, b) == HighSigned(a, b) && HiMulUnsigned(a, b) == HighUnsigned(a, b)
  {
    hide Wrap, Wrap64, Signed64, Signed;
    SignedRange(a);
    SignedRange(b);
    SignedProductRange(Signed(a), Signed(b));
    Fits64(Signed(a) * Signed(b));
    ProductRange(a, b);
    Fits64(a * b);
  }

  /** The low word does not depend on the operands' signedness. */
  lemma MulMeaning(a: Word, b: Word)
    ensures MulSigned(a, b) == MulUnsigned(a, b) == LowProduct(a, b)
  {
    var i, j := if a < 0x8000_0000 then 0 else 1, if b < 0x8000_0000 then 0 else 1;
    assert Signed(a) == a - i * 0x1_0000_0000 && Signed(b) == b - j * 0x1_0000_0000;
    var k := i * j * 0x1_0000_0000 - i * b - j * a;
    assert Signed(a) * Signed(b) == a * b + k * 0x1_0000_0000;
    WrapCongruent(Signed(a) * Signed(b), a * b, k);
  }

  /** Nor do sums and differences. */
  lemma SumSigned(a: Word, b: Word)
    ensures Wrap(Signed(a) + Signed(b)) == Wrap(a + b) && Wrap(Signed(a) - Signed(b)) == Wrap(a - b)
  {
    hide Wrap;
    var i, j := if a < 0x8000_0000 then 0 else 1, if b < 0x8000_0000 then 0 else 1;
    WrapCongruent(Signed(a) + Signed(b), a + b, -i - j);
    WrapCongruent(Signed(a) - Signed(b), a - b, j - i);
  }

  // ---- Shifts and rotations ----

  /** C++'s << for amounts up to 32. */
  function ShlUpTo32(host: Host, x: Word, s: nat): Word {
    if s < 32 then Shl(x, s) else host.shl32(x)
  }

  function Sra(host: Host, x: Word, s: nat): Word
    requires s < 32
  {
    Or(Wrap(ShlUpTo32(host, ALL_ONES, 32 - s) * And(Shr(x, 31), 1)), Shr(x, s))
  }

  lemma SraMeaning(host: Host, x: Word, s: nat)
    requires s < 32
    ensures Sra(host, x, s) == ShiftValue(host, Isa.Sra, x, s)
  {
    hide And, Or, Keep, Drop, Lift, Pow2, Shl, Shr, Wrap, ShlUpTo32, ArithmeticShift;
    Pow2Table();
    SignBit(x, 32);
    MulBit(ShlUpTo32(host, ALL_ONES, 32 - s), And(Shr(x, 31), 1));
    if x < 0x8000_0000 {
      OrZero(Shr(x, s));
      PositiveShift(x, s);
    } else if s > 0 {
      OrSignMask(host, x, s);
    } else {
      ShiftsByNone(host, x);
    }
  }

  lemma ShiftsByNone(host: Host, x: Word)
    ensures ShlUpTo32(host, ALL_ONES, 32) == host.shl32(ALL_ONES) && Shr(x, 0) == x
  {}

  lemma PositiveShift(x: Word, s: nat)
    requires x < 0x8000_0000
    ensures ArithmeticShift(x, s) == Shr(x, s) && (s == 0 ==> Shr(x, s) == x)
  {
    hide Pow2;
    SplitIsDivMod(x, s);
    WrapSmall(Drop(x, s));
  }

  lemma OrSignMask(host: Host, x: Word, s: nat)
    requires x >= 0x8000_0000 && 0 < s < 32
    ensures Or(ShlUpTo32(host, ALL_ONES, 32 - s), Shr(x, s)) == ArithmeticShift(x, s)
  {
    hide Or, Keep, Drop, Lift, Pow2, Shl, Wrap;
    Pow2Table();
    OnesFrom(32 - s);
    DropBound(x, s, 32 - s);
    OrIsJoin(Pow2(s) - 1, Drop(x, s), 32 - s, Shl(ALL_ONES, 32 - s), Drop(x, s));
    NegativeShift(x, s);
    Pow2Monotone(32 - s, 31);
    WrapSmall(Drop(x, s) - Pow2(32 - s));
  }

  lemma NegativeShift(x: Word, s: nat)
    requires s <= 32
    ensures (x - 0x1_0000_0000) / Pow2(s) == Drop(x, s) - Pow2(32 - s)
  {
    hide Keep, Drop, Lift, Pow2;
    SplitJoin(x, s);
    LiftIsMul(Drop(x, s), s);
    Pow2Split(s);
    var q := Drop(x, s) - Pow2(32 - s);
    assert q * Pow2(s) == Drop(x, s) * Pow2(s) - Pow2(32 - s) * Pow2(s);
    DivUnique(x - 0x1_0000_0000, Pow2(s), q, Keep(x, s));
  }

  function Rotr(host: Host, x: Word, s: nat): Word
    requires s < 32
  {
    Or(Shr(x, s), ShlUpTo32(host, x, 32 - s))
  }

  lemma RotateRightJoins(x: Word, s: nat)
    requires s <= 32
    ensures RotateRight(x, s) == Drop(x, s) + Lift(Keep(x, s), 32 - s)
    ensures Drop(x, s) < Pow2(32 - s)
  {
    hide Wrap, Lift, Drop, Pow2;
    Pow2At32();
    DropBound(x, s, 32 - s);
    LiftBound(Keep(x, s), Drop(x, s), 32 - s, s);
    WrapSmall(Drop(x, s) + Lift(Keep(x, s), 32 - s));
  }

  lemma RotrMeaning(host: Host, x: Word, s: nat)
    requires s < 32
    ensures Rotr(host, x, s) == ShiftValue(host, Isa.Rotr, x, s)
  {
    if s > 0 {
      LiftSplit(x, 32 - s);
      RotateRightJoins(x, s);
      OrIsJoin(Keep(x, s), Drop(x, s), 32 - s, Shl(x, 32 - s), Drop(x, s));
    }
  }

  // ---- Counting leading bits ----

  lemma {:induction false} BitLengthExact(x: nat, k: nat)
    ensures BitLength(x) == k <==> x < Pow2(k) && (k > 0 ==> Pow2(k - 1) <= x)
  {
    if k > 0 && x > 0 { BitLengthExact(x / 2, k - 1); }
  }

  lemma Doubled(x: Word)
    requires 0 < x < 0x8000_0000
    ensures Shl(x, 1) == 2 * x && BitLength(2 * x) == BitLength(x) + 1
  {
    assert Lift(x, 1) == 2 * x;
  }

  method CountLeadingZeros(rs: Word) returns (count: Word)
    ensures count == LeadingZeros(rs)
  {
    var x := rs;
    count := if x == 0 then 32 else 0;
    BitLengthBound32(rs);
    while Signed(x) > 0
      invariant x == 0 ==> rs == 0 && count == 32
      invariant x != 0 ==> BitLength(x) == BitLength(rs) + count
      decreases 32 - BitLength(x)
    {
      Doubled(x);
      BitLengthBound32(2 * x);
      count := count + 1;
      x := Shl(x, 1);
    }
    if x != 0 { NegativeLength(x); }
  }

  lemma NegativeLength(x: Word)
    requires x >= 0x8000_0000
    ensures BitLength(x) == 32
  {
    Pow2Table();
    BitLengthExact(x, 32);
  }

  lemma BitLengthBound32(x: Word)
    ensures BitLength(x) <= 32
  {
    Pow2Table();
    BitLengthBound(x, 32);
  }

  /** r is what is left of rs after its leading ones. */
  ghost predicate OnesPeeled(rs: Word, x: Word, count: nat, r: nat) {
    count <= 32 && x == Lift(r, count) && Not(rs) + r + 1 == Pow2(32 - count)
  }

  lemma NothingToPeel(rs: Word, x: Word, r: nat)
    requires OnesPeeled(rs, x, 32, r)
    ensures x == 0
  {
    hide Lift;
    LiftOne(32);
  }

  lemma PeelOne(rs: Word, x: Word, count: nat, r: nat)
    requires OnesPeeled(rs, x, count, r) && Signed(x) < 0
    ensures count < 32 && r >= Pow2(31 - count)
    ensures OnesPeeled(rs, Shl(x, 1), count + 1, r - Pow2(31 - count))
  {
    hide Pow2;
    if count == 32 { NothingToPeel(rs, x, r); }
    var top := Pow2(31 - count);
    HalvePow2(32 - count);
    TopOfPeel(count);
    LiftLess(top, r, count);
    LiftAdd(r - top, top, count);
    assert Lift(x, 1) == 2 * x;
  }

  lemma HalvePow2(n: nat)
    requires n > 0
    ensures Pow2(n) == 2 * Pow2(n - 1)
  {}

  lemma TopOfPeel(count: nat)
    requires count < 32
    ensures Lift(Pow2(31 - count), count) == 0x8000_0000
  {
    LiftOne(31 - count);
    LiftLift(1, 31 - count, count);
    LiftOne(31);
    Pow2Table();
  }

  lemma PeelDone(rs: Word, x: Word, count: nat, r: nat)
    requires OnesPeeled(rs, x, count, r) && Signed(x) >= 0
    ensures count == LeadingZeros(Not(rs))
  {
    BitLengthExact(Not(rs), 32 - count);
    if count < 32 {
      TopOfPeel(count);
      LiftLess(Pow2(31 - count), r, count);
    }
  }

  method CountLeadingOnes(rs: Word) returns (count: Word)
    ensures count == LeadingZeros(Not(rs))
  {
    var x := rs;
    count := 0;
    ghost var r: nat := rs;
    Pow2At32();
    while Signed(x) < 0
      invariant OnesPeeled(rs, x, count, r)
      decreases 32 - count
    {
      PeelOne(rs, x, count, r);
      r := r - Pow2(31 - count);
      count := count + 1;
      x := Shl(x, 1);
    }
    PeelDone(rs, x, count, r);
  }

  // ---- Bits and bytes ----

  /** One step of the byte reversal: exchanges the bits under the mask with those k above. */
  function ExchangeBits(v: Byte, k: nat, mask: Byte): Byte {
    Or(And(Shr(v, k), mask), Shl(And(v, mask), k)) % 0x100
  }

  lemma ExchangeBitsAt(v: Byte, k: nat, mask: Byte, i: nat)
    requires i < 8
    ensures Bit(ExchangeBits(v, k, mask), i)
         == ((Bit(v, i + k) && Bit(mask, i)) || (k <= i && Bit(v, i - k) && Bit(mask, i - k)))
  {
    Pow2Table();
    var a, b := And(Shr(v, k), mask), Shl(And(v, mask), k);
    SplitAt(Or(a, b), 8, 0x100);
    BitOfKeep(Or(a, b), 8, i);
    BitOfOr(a, b, i);
    BitOfAnd(Shr(v, k), mask, i);
    BitOfDrop(v, k, i);
    BitOfShl(And(v, mask), k, i);
    if k <= i { BitOfAnd(v, mask, i - k); }
  }

  function ReverseByteBits(v: Byte): Byte {
    ExchangeBits(ExchangeBits(ExchangeBits(v, 1, 0x55), 2, 0x33), 4, 0x0f)
  }

  lemma MaskBits(i: nat)
    requires i < 8
    ensures Bit(0x55, i) == (i % 2 == 0)
    ensures Bit(0x33, i) == (i % 4 < 2)
    ensures Bit(0x0f, i) == (i < 4)
  {
    assert Bit(0x55, 0) && !Bit(0x55, 1) && Bit(0x55, 2) && !Bit(0x55, 3);
    assert Bit(0x55, 4) && !Bit(0x55, 5) && Bit(0x55, 6) && !Bit(0x55, 7);
    assert Bit(0x33, 0) && Bit(0x33, 1) && !Bit(0x33, 2) && !Bit(0x33, 3);
    assert Bit(0x33, 4) && Bit(0x33, 5) && !Bit(0x33, 6) && !Bit(0x33, 7);
    assert Bit(0x0f, 0) && Bit(0x0f, 1) && Bit(0x0f, 2) && Bit(0x0f, 3);
    assert !Bit(0x0f, 4) && !Bit(0x0f, 5) && !Bit(0x0f, 6) && !Bit(0x0f, 7);
  }

  lemma Exchange1(v: Byte, i: nat)
    requires i < 8
    ensures Bit(ExchangeBits(v, 1, 0x55), i) == Bit(v, if i % 2 == 0 then i + 1 else i - 1)
  {
    hide ExchangeBits;
    ExchangeBitsAt(v, 1, 0x55, i);
    MaskBits(i);
    if i > 0 { MaskBits(i - 1); }
  }

  lemma Exchange2(v: Byte, i: nat)
    requires i < 8
    ensures Bit(ExchangeBits(v, 2, 0x33), i) == Bit(v, if i % 4 < 2 then i + 2 else i - 2)
  {
    hide ExchangeBits;
    ExchangeBitsAt(v, 2, 0x33, i);
    MaskBits(i);
    if i > 1 { MaskBits(i - 2); }
  }

  lemma Exchange4(v: Byte, i: nat)
    requires i < 8
    ensures Bit(ExchangeBits(v, 4, 0x0f), i) == Bit(v, if i < 4 then i + 4 else i - 4)
  {
    hide ExchangeBits;
    ExchangeBitsAt(v, 4, 0x0f, i);
    MaskBits(i);
    if i > 3 { MaskBits(i - 4); }
  }

  lemma ThreeExchanges(i: nat)
    requires i < 8
    ensures var j := if i < 4 then i + 4 else i - 4;
            var k := if j % 4 < 2 then j + 2 else j - 2;
            j < 8 && k < 8 && (if k % 2 == 0 then k + 1 else k - 1) == 7 - i
  {}

  /** The three exchanges put bit i at bit 7 - i. */
  lemma ReverseByteBitsAt(v: Byte, i: nat)
    requires i < 8
    ensures Bit(ReverseByteBits(v), i) == Bit(v, 7 - i)
  {
    hide Bit, ExchangeBits;
    var v1 := ExchangeBits(v, 1, 0x55);
    var v2 := ExchangeBits(v1, 2, 0x33);
    var j := if i < 4 then i + 4 else i - 4;
    var k := if j % 4 < 2 then j + 2 else j - 2;
    ThreeExchanges(i);
    Exchange4(v2, i);
    Exchange2(v1, j);
    Exchange1(v, k);
  }

  lemma ReverseBytesAt(x: Word, i: nat)
    requires i < 32
    ensures Bit(ReverseBytes(x), i) == Bit(x, Mirror(i))
  {
    BitOfFromBits(seq(32, j requires 0 <= j < 32 => Bit(x, Mirror(j))), i);
  }

  /** Bits 8k to 8k+7 of the result come from byte k. */
  lemma ReversedByteAt(rt: Word, k: nat, b: nat)
    requires k < 4 && b < 32
    ensures Bit(Shl(ReverseByteBits(Shr(rt, 8 * k) % 0x100), 8 * k), b)
         == (8 * k <= b < 8 * (k + 1) && Bit(rt, Mirror(b)))
  {
    hide And, Or, Keep, Drop, Lift, Pow2, ReverseByteBits, Bit;
    var byte := Shr(rt, 8 * k);
    var r := ReverseByteBits(byte % 0x100);
    BitOfShl(r, 8 * k, b);
    if 8 * k <= b < 8 * (k + 1) {
      var i := b - 8 * k;
      ReverseByteBitsAt(byte % 0x100, i);
      ByteIsKeep(byte);
      BitOfKeep(byte, 8, 7 - i);
      BitOfDrop(rt, 8 * k, 7 - i);
      assert Mirror(b) == 8 * k + 7 - i;
    } else if b >= 8 * k {
      Pow2Table();
      BitAbove(r, 8, b - 8 * k);
    }
  }

  lemma ByteIsKeep(x: Word)
    ensures x % 0x100 == Keep(x, 8)
  {
    Pow2Table();
    SplitAt(x, 8, 0x100);
  }

  lemma BitSwapStep(rt: Word, result: Word, k: nat, b: nat)
    requires k < 4 && b < 32
    requires Bit(result, b) == (b < 8 * k && Bit(rt, Mirror(b)))
    ensures Bit(Or(result, Shl(ReverseByteBits(Shr(rt, 8 * k) % 0x100), 8 * k)), b)
         == (b < 8 * (k + 1) && Bit(rt, Mirror(b)))
  {
    ReversedByteAt(rt, k, b);
    BitOfOr(result, Shl(ReverseByteBits(Shr(rt, 8 * k) % 0x100), 8 * k), b);
  }

  method SwapBits(rt: Word) returns (result: Word)
    ensures result == ReverseBytes(rt)
  {
    result := 0;
    forall b | 0 <= b < 32 ensures !Bit(result, b) { BitAbove(0, 0, b); }
    for i := 0 to 4
      invariant forall b :: 0 <= b < 32 ==> Bit(result, b) == (b < 8 * i && Bit(rt, Mirror(b)))
    {
      ghost var before := result;
      result := Or(result, Shl(ReverseByteBits(Shr(rt, 8 * i) % 0x100), 8 * i));
      forall b | 0 <= b < 32
        ensures Bit(result, b) == (b < 8 * (i + 1) && Bit(rt, Mirror(b)))
      {
        BitSwapStep(rt, before, i, b);
      }
    }
    forall b | 0 <= b < 32
      ensures Bit(result, b) == Bit(ReverseBytes(rt), b)
    {
      ReverseBytesAt(rt, b);
    }
    WordExtensional(result, ReverseBytes(rt));
  }

  function SwapWithinHalfwords(rt: Word): Word {
    Or(Or(Or(Shl(And(rt, 0xFF), 8), Shr(And(rt, 0xFF00), 8)), Shl(And(rt, 0xFF_0000), 8)),
       Shr(And(rt, 0xFF00_0000), 8))
  }

  // The four terms of the byte swap.

  lemma WsbhUp(rt: Word)
    ensures Shl(And(rt, 0xFF), 8) == rt % 0x100 * 0x100
    ensures Shl(And(rt, 0xFF_0000), 8) == rt / 0x1_0000 % 0x100 * 0x100_0000
  {
    hide And, Shl, Wrap, Pow2;
    Pow2Table();
    AndField(rt, 0, 8, 1, 0x100, 0xFF);
    ShlBy(And(rt, 0xFF), 8, 0x100);
    WrapSmall(And(rt, 0xFF) * 0x100);
    AndField(rt, 16, 8, 0x1_0000, 0x100, 0xFF_0000);
    ShlBy(And(rt, 0xFF_0000), 8, 0x100);
    WrapSmall(And(rt, 0xFF_0000) * 0x100);
  }

  lemma WsbhDown(rt: Word)
    ensures Shr(And(rt, 0xFF00), 8) == rt / 0x100 % 0x100
    ensures Shr(And(rt, 0xFF00_0000), 8) == rt / 0x100_0000 * 0x1_0000
  {
    hide And, Shr, Pow2;
    Pow2Table();
    AndField(rt, 8, 8, 0x100, 0x100, 0xFF00);
    ShrBy(And(rt, 0xFF00), 8, 0x100);
    AndField(rt, 24, 8, 0x100_0000, 0x100, 0xFF00_0000);
    ShrBy(And(rt, 0xFF00_0000), 8, 0x100);
  }

  lemma WsbhMeaning(rt: Word)
    ensures SwapWithinHalfwords(rt) == SwapHalfwordBytes(rt)
  {
    hide And, Or, Shl, Shr;
    WsbhUp(rt);
    WsbhDown(rt);
    FourBytes(rt % 0x100, rt / 0x100 % 0x100, rt / 0x1_0000 % 0x100, rt / 0x100_0000);
  }

  lemma FourBytes(b0: Byte, b1: Byte, b2: Byte, b3: Byte)
    ensures Or(Or(Or(b0 * 0x100, b1), b2 * 0x100_0000), b3 * 0x1_0000)
         == b0 * 0x100 + b1 + b2 * 0x100_0000 + b3 * 0x1_0000
  {
    Pow2Table();
    OrAssoc(Or(b0 * 0x100, b1), b2 * 0x100_0000, b3 * 0x1_0000);
    OrSum(b0, b1, 8, 0x100, b0 * 0x100);
    OrSum(b2, b3 * 0x1_0000, 24, 0x100_0000, b2 * 0x100_0000);
    OrSum(b2 * 0x100 + b3, b0 * 0x100 + b1, 16, 0x1_0000, b2 * 0x100_0000 + b3 * 0x1_0000);
  }

  function AlignWords(rt: Word, rs: Word, bp: nat): Word
    requires bp < 4
  {
    var lo := if bp == 0 then 0 else Shr(rs, 8 * (4 - bp));
    Or(Shl(rt, 8 * bp), lo)
  }

  lemma DropBound32(x: Word, s: nat)
    requires s <= 32
    ensures Drop(x, 32 - s) < Pow2(s)
  {
    Pow2At32();
    DropBound(x, 32 - s, s);
  }

  lemma LiftBound32(hi: nat, lo: nat, s: nat)
    requires s <= 32 && hi < Pow2(32 - s) && lo < Pow2(s)
    ensures Lift(hi, s) + lo < 0x1_0000_0000
  {
    Pow2At32();
    LiftBound(hi, lo, s, 32 - s);
  }

  lemma AlignConcat(rt: Word, rs: Word, s: nat)
    requires s <= 32
    ensures AlignShift(rt, rs, s) == Wrap(Lift(rt, s) + Drop(rs, 32 - s))
  {
    hide Keep, Drop, Lift, Pow2;
    LiftSplit(rs, s);
    LiftAdd(rt * TWO32, rs, s);
    LiftIsMul(rt * TWO32, s);
    LiftIsMul(rt, s);
    assert rt * TWO32 * Pow2(s) == rt * Pow2(s) * TWO32;
    DivUnique(Lift(rt * TWO32 + rs, s), TWO32, Lift(rt, s) + Drop(rs, 32 - s), Lift(Keep(rs, 32 - s), s));
  }

  lemma AlignJoins(hi: Word, lo: Word, s: nat)
    requires s <= 32
    ensures AlignShift(hi, lo, s) == Lift(Keep(hi, 32 - s), s) + Drop(lo, 32 - s)
    ensures Drop(lo, 32 - s) < Pow2(s)
  {
    hide Lift, Keep, Drop, AlignShift, Pow2;
    AlignConcat(hi, lo, s);
    LiftSplit(hi, s);
    DropBound32(lo, s);
    LiftBound32(Keep(hi, 32 - s), Drop(lo, 32 - s), s);
    WrapCongruent(Lift(hi, s) + Drop(lo, 32 - s), Lift(Keep(hi, 32 - s), s) + Drop(lo, 32 - s), Drop(hi, 32 - s));
  }

  lemma AlignMeaning(rt: Word, rs: Word, bp: nat)
    requires bp < 4
    ensures AlignWords(rt, rs, bp) == AlignShift(rt, rs, 8 * bp)
  {
    hide Or, Keep, Drop, Lift, AlignShift, Wrap, Shl, Shr;
    var s := 8 * bp;
    AlignJoins(rt, rs, s);
    LiftSplit(rt, s);
    ShrIsDrop(rs, 32 - s);
    OrIsJoin(Keep(rt, 32 - s), Drop(rs, 32 - s), s, Shl(rt, s), Drop(rs, 32 - s));
  }

  lemma ShrIsDrop(x: Word, s: nat)
    ensures Shr(x, s) == Drop(x, s)
  {}

  // ---- Bit-fields ----

  /** n ones, where 1 << 32 would be out of range. */
  function LowMask(n: nat): Word {
    if n == 32 then ALL_ONES else Wrap(Shl(1, n) - 1)
  }

  lemma LowMaskMeaning(n: nat)
    requires n <= 32
    ensures LowMask(n) == Pow2(n) - 1
  {
    hide Lift, Pow2, Wrap;
    Pow2Table();
    if n < 32 {
      Pow2Monotone(n, 31);
      LiftOne(n);
      WrapSmall(Pow2(n));
      WrapSmall(Pow2(n) - 1);
    }
  }

  /** n ones at bit l, n + l <= 32. */
  lemma FieldMask(l: nat, n: nat)
    requires l + n <= 32
    ensures Shl(LowMask(n), l) == Lift(Pow2(n) - 1, l)
  {
    LowMaskMeaning(n);
    LiftOne(l);
    LiftBound(Pow2(n) - 1, 0, l, n);
    Pow2Monotone(l + n, 32);
    Pow2At32();
  }

  function ExtractBits(rs: Word, lsb: nat, size: nat): Word {
    Shr(And(rs, if size == 32 then ALL_ONES else Shl(LowMask(size), lsb)), lsb)
  }

  lemma ExtractMeaning(rs: Word, lsb: nat, size: nat)
    requires lsb + size <= 32
    ensures ExtractBits(rs, lsb, size) == ExtractField(rs, lsb, size)
  {
    hide And, Lift, Drop, Pow2, Shl, LowMask;
    FieldMask(lsb, size);
    if size == 32 { FullMask(); }
    FieldFits(rs, lsb, size);
    AndFieldMask(rs, lsb, size, Shl(LowMask(size), lsb));
    OneAtLeast(lsb);
    JoinSplit(Keep(Drop(rs, lsb), size), 0, lsb);
  }

  lemma FullMask()
    ensures Shl(LowMask(32), 0) == ALL_ONES
  {}

  lemma OneAtLeast(k: nat)
    ensures Pow2(k) > 0
  {}

  function InsertBits(rt: Word, rs: Word, lsb: nat, size: nat): Word {
    Or(And(rt, Not(Shl(LowMask(size), lsb))), Shl(And(rs, LowMask(size)), lsb))
  }

  lemma InsertBitsAt(rt: Word, rs: Word, lsb: nat, size: nat, i: nat)
    requires lsb + size <= 32 && i < 32
    ensures Bit(InsertBits(rt, rs, lsb, size), i) == Bit(if lsb <= i < lsb + size then rs else rt,
                                                         if lsb <= i < lsb + size then i - lsb else i)
  {
    var mask := Shl(LowMask(size), lsb);
    LowMaskMeaning(size);
    AndLowMask(rs, size, LowMask(size));
    BitOfOr(And(rt, Not(mask)), Shl(And(rs, LowMask(size)), lsb), i);
    BitOfAnd(rt, Not(mask), i);
    BitOfNot(mask, i);
    BitOfShl(LowMask(size), lsb, i);
    BitOfShl(And(rs, LowMask(size)), lsb, i);
    if lsb <= i {
      BitOfOnes(size, i - lsb);
      BitOfKeep(rs, size, i - lsb);
    }
  }

  lemma InsertFieldJoins(x: Word, v: Word, lsb: nat, size: nat)
    requires lsb + size <= 32
    ensures InsertField(x, v, lsb, size)
         == Lift(Lift(Drop(x, lsb + size), size) + Keep(v, size), lsb) + Keep(x, lsb)
  {
    hide Keep, Drop, Lift, Pow2;
    DropBound32(x, 32 - lsb - size);
    LiftBound(Drop(x, lsb + size), Keep(v, size), size, 32 - lsb - size);
    LiftBound32(Lift(Drop(x, lsb + size), size) + Keep(v, size), Keep(x, lsb), lsb);
  }

  lemma InsertFieldAt(x: Word, v: Word, lsb: nat, size: nat, i: nat)
    requires lsb + size <= 32 && i < 32
    ensures Bit(InsertField(x, v, lsb, size), i) == Bit(if lsb <= i < lsb + size then v else x,
                                                        if lsb <= i < lsb + size then i - lsb else i)
  {
    InsertFieldJoins(x, v, lsb, size);
    var hi := Drop(x, lsb + size);
    BitOfJoin(Lift(hi, size) + Keep(v, size), Keep(x, lsb), lsb, i);
    BitOfKeep(x, lsb, i);
    if i >= lsb {
      BitOfJoin(hi, Keep(v, size), size, i - lsb);
      BitOfKeep(v, size, i - lsb);
      if i >= lsb + size { BitOfDrop(x, lsb + size, i - lsb - size); }
    }
  }

  lemma InsertMeaning(rt: Word, rs: Word, lsb: nat, size: nat)
    requires lsb + size <= 32
    ensures InsertBits(rt, rs, lsb, size) == InsertField(rt, rs, lsb, size)
  {
    forall i | 0 <= i < 32
      ensures Bit(InsertBits(rt, rs, lsb, size), i) == Bit(InsertField(rt, rs, lsb, size), i)
    {
      InsertBitsAt(rt, rs, lsb, size, i);
      InsertFieldAt(rt, rs, lsb, size, i);
    }
    WordExtensional(InsertBits(rt, rs, lsb, size), InsertField(rt, rs, lsb, size));
  }

  // ---- Branch conditions and targets ----

  /** The carry out of the unsigned sum compared with the sum's sign bit. */
  predicate CarryDiffersFromSign(a: Word, b: Word) {
    var carry := Wrap(a + b) < a;
    var isSigned := And(Wrap(a + b), 0x8000_0000) > 0;
    carry != isSigned
  }

  lemma TopBit(x: Word)
    ensures And(x, 0x8000_0000) > 0 <==> Signed(x) < 0
  {
    Pow2Table();
    AndField(x, 31, 1, 0x8000_0000, 2, 0x8000_0000);
  }

  lemma OverflowMeaning(a: Word, b: Word)
    ensures CarryDiffersFromSign(a, b) == OverflowFlag(a, b)
  {
    hide And;
    TopBit(Wrap(a + b));
  }

  function RegionTarget(pc: Word, address: Word): Word {
    Or(Shl(address, 2), And(pc, Shl(0xF, 28)))
  }

  lemma RegionMeaning(pc: Word, address: Word)
    requires address < 0x400_0000
    ensures RegionTarget(pc, address) == Wrap(pc / 0x1000_0000 * 0x1000_0000 + 4 * address)
  {
    hide And, Or, Shl, Wrap, Pow2;
    Pow2Table();
    ShlBy(0xF, 28, 0x1000_0000);
    WrapSmall(0xF000_0000);
    AndField(pc, 28, 4, 0x1000_0000, 16, 0xF000_0000);
    ShlBy(address, 2, 4);
    WrapSmall(address * 4);
    OrSum(pc / 0x1000_0000, 4 * address, 28, 0x1000_0000, pc / 0x1000_0000 * 0x1000_0000);
    WrapSmall(pc / 0x1000_0000 * 0x1000_0000 + 4 * address);
  }

  /** The "sign extension" of ADDIUPC and LWPC tests bit 21 of a 21-bit number. */
  function PcRelAddress(pc: Word, imm: Word): Word {
    var address := Shl(imm, 2);
    Wrap(Or(address, 1023 * And(Shr(address, 21), 1) % TWO32) + pc)
  }

  lemma PcRelMeaning(pc: Word, imm: Word)
    requires imm < 0x8_0000
    ensures PcRelAddress(pc, imm) == Wrap(pc + 4 * imm)
  {
    hide And, Or, Lift, Drop;
    Pow2Table();
    ShlBy(imm, 2, 4);
    ShrBy(4 * imm, 21, 0x20_0000);
    AndOne(0);
    OrZero(4 * imm);
  }

  lemma ClearLowHalf(x: Word)
    ensures And(x, 0xFFFF_0000) == x / 0x1_0000 * 0x1_0000
  {
    Pow2Table();
    AndField(x, 16, 16, 0x1_0000, 0x1_0000, 0xFFFF_0000);
  }
}

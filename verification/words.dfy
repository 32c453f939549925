/** 32-bit words as integers, their two's-complement reading, and C++'s bitwise operators on them. */
module Words {

  const TWO32: int := 0x1_0000_0000
  const ALL_ONES: Word := 0xFFFF_FFFF

  type Word = x: int | 0 <= x < 0x1_0000_0000
  type Byte = x: int | 0 <= x < 0x100

  /** Conversion of any integer to uint32_t. */
  function Wrap(n: int): Word {
    n % 0x1_0000_0000
  }

  /** The int32_t member of the Register union. */
  function Signed(w: Word): int {
    if w < 0x8000_0000 then w else w - 0x1_0000_0000
  }

  function Pow2(k: nat): nat
    ensures Pow2(k) > 0
  {
    if k == 0 then 1 else 2 * Pow2(k - 1)
  }

  /** The two's-complement value of an n-bit field. */
  function SignedField(v: int, n: nat): int
    requires n > 0
  {
    if v < Pow2(n - 1) then v else v - Pow2(n)
  }

  function Bit(x: nat, i: nat): bool {
    if i == 0 then x % 2 == 1 else Bit(x / 2, i - 1)
  }

  function FromBits(b: seq<bool>): nat
    ensures FromBits(b) < Pow2(|b|)
  {
    if b == [] then 0 else (if b[0] then 1 else 0) + 2 * FromBits(b[1..])
  }

  function PopCount(x: nat): nat {
    if x == 0 then 0 else x % 2 + PopCount(x / 2)
  }

  function BitLength(x: nat): nat {
    if x == 0 then 0 else 1 + BitLength(x / 2)
  }

  datatype Gate = AND | OR | XOR {
    function Out(a: bool, b: bool): bool {
      match this
      case AND => a && b
      case OR => a || b
      case XOR => a != b
    }
  }

  /** The low n bits of a bitwise operator. */
  function Bitwise(g: Gate, n: nat, x: nat, y: nat): nat
    ensures Bitwise(g, n, x, y) < Pow2(n)
  {
    if n == 0 then 0
    else (if g.Out(x % 2 == 1, y % 2 == 1) then 1 else 0) + 2 * Bitwise(g, n - 1, x / 2, y / 2)
  }

  function And(x: Word, y: Word): Word {
    Pow2At32(); Bitwise(AND, 32, x, y)
  }

  function Or(x: Word, y: Word): Word {
    Pow2At32(); Bitwise(OR, 32, x, y)
  }

  function Xor(x: Word, y: Word): Word {
    Pow2At32(); Bitwise(XOR, 32, x, y)
  }

  function Not(x: Word): Word {
    ALL_ONES - x
  }

  /** x * 2^s, x / 2^s and x mod 2^s, one bit at a time. */
  function Lift(x: nat, s: nat): nat {
    if s == 0 then x else 2 * Lift(x, s - 1)
  }

  function Drop(x: nat, s: nat): (r: nat)
    ensures r <= x
  {
    if s == 0 then x else Drop(x / 2, s - 1)
  }

  function Keep(x: nat, s: nat): (r: nat)
    ensures r < Pow2(s) && r <= x
  {
    if s == 0 then 0 else x % 2 + 2 * Keep(x / 2, s - 1)
  }

  function Shl(x: Word, s: nat): Word {
    Wrap(Lift(x, s))
  }

  function Shr(x: Word, s: nat): Word {
    Drop(x, s)
  }

  // ---- Powers of two ----

  lemma Pow2Table()
    ensures Pow2(0) == 1 && Pow2(1) == 2 && Pow2(2) == 4 && Pow2(4) == 16 && Pow2(5) == 32 && Pow2(6) == 64
    ensures Pow2(7) == 0x80 && Pow2(8) == 0x100 && Pow2(11) == 0x800
    ensures Pow2(15) == 0x8000 && Pow2(16) == 0x1_0000 && Pow2(18) == 0x4_0000 && Pow2(19) == 0x8_0000
    ensures Pow2(20) == 0x10_0000 && Pow2(21) == 0x20_0000 && Pow2(24) == 0x100_0000
    ensures Pow2(25) == 0x200_0000 && Pow2(26) == 0x400_0000 && Pow2(28) == 0x1000_0000
    ensures Pow2(31) == 0x8000_0000 && Pow2(32) == 0x1_0000_0000
  {
    assert Pow2(4) == 16;
    assert Pow2(8) == 0x100;
    assert Pow2(12) == 0x1000;
    assert Pow2(16) == 0x1_0000;
    assert Pow2(20) == 0x10_0000;
    assert Pow2(24) == 0x100_0000;
    assert Pow2(28) == 0x1000_0000;
  }

  lemma Pow2At32()
    ensures Pow2(32) == 0x1_0000_0000
  {
    Pow2Table();
  }

  lemma {:induction false} Pow2Add(a: nat, b: nat)
    ensures Pow2(a + b) == Pow2(a) * Pow2(b)
  {
    if a > 0 {
      Pow2Add(a - 1, b);
      MulAssoc(2, Pow2(a - 1), Pow2(b));
    }
  }

  /** 2^32 = 2^s * 2^(32-s), the split every shift and rotation uses. */
  lemma Pow2Split(s: nat)
    requires s <= 32
    ensures Pow2(s) * Pow2(32 - s) == 0x1_0000_0000
  {
    Pow2Add(s, 32 - s);
    Pow2Table();
  }

  lemma {:induction false} Pow2Monotone(a: nat, b: nat)
    requires a <= b
    ensures Pow2(a) <= Pow2(b)
  {
    if a < b { Pow2Monotone(a, b - 1); }
  }

  // ---- Non-linear facts ----

  lemma MulAssoc(a: int, b: int, c: int)
    ensures (a * b) * c == a * (b * c)
  {}

  lemma MulMonotone(k: nat, a: int, b: int)
    requires a >= b
    ensures a * k >= b * k && k * a >= k * b
  {}

  /** Quotient and remainder are the only way to write x as q*d + r with 0 <= r < d. */
  lemma DivUnique(x: int, d: int, q: int, r: int)
    requires d > 0 && 0 <= r < d && x == q * d + r
    ensures x / d == q && x % d == r
  {
    var e := q - x / d;
    assert x == (x / d) * d + x % d;
    assert e * d == x % d - r;
    if e > 0 { MulMonotone(d, e, 1); }
    if e < 0 { MulMonotone(d, -1, e); }
  }

  // ---- Wrap-around ----

  lemma WrapCongruent(x: int, y: int, k: int)
    requires x == y + k * 0x1_0000_0000
    ensures Wrap(x) == Wrap(y)
  {}

  lemma WrapSmall(x: int)
    requires -0x1_0000_0000 <= x < 0x1_0000_0000
    ensures Wrap(x) == if x < 0 then x + 0x1_0000_0000 else x
  {}

  lemma SignedOfWrap(n: int)
    requires -0x8000_0000 <= n < 0x8000_0000
    ensures Signed(Wrap(n)) == n
  {}

  // ---- Splitting a number at bit k ----

  lemma {:induction false} SplitJoin(x: nat, k: nat)
    ensures Lift(Drop(x, k), k) + Keep(x, k) == x
  {
    if k > 0 { SplitJoin(x / 2, k - 1); }
  }

  lemma {:induction false} JoinSplit(hi: nat, lo: nat, k: nat)
    requires lo < Pow2(k)
    ensures Drop(Lift(hi, k) + lo, k) == hi && Keep(Lift(hi, k) + lo, k) == lo
  {
    if k > 0 {
      JoinSplit(hi, lo / 2, k - 1);
      assert (Lift(hi, k) + lo) / 2 == Lift(hi, k - 1) + lo / 2;
    }
  }

  lemma {:induction false} LiftIsMul(x: nat, s: nat)
    ensures Lift(x, s) == x * Pow2(s)
  {
    if s > 0 {
      LiftIsMul(x, s - 1);
      assert x * Pow2(s) == 2 * (x * Pow2(s - 1));
    }
  }

  lemma SplitIsDivMod(x: nat, k: nat)
    ensures Drop(x, k) == x / Pow2(k) && Keep(x, k) == x % Pow2(k)
  {
    SplitJoin(x, k);
    LiftIsMul(Drop(x, k), k);
    DivUnique(x, Pow2(k), Drop(x, k), Keep(x, k));
  }

  /** The same for a divisor the caller knows as a number. */
  lemma SplitAt(x: nat, k: nat, p: nat)
    requires p == Pow2(k)
    ensures Drop(x, k) == x / p && Keep(x, k) == x % p && Lift(x, k) == x * p
  {
    SplitIsDivMod(x, k);
    LiftIsMul(x, k);
  }

  lemma {:induction false} DropDrop(x: nat, a: nat, b: nat)
    ensures Drop(Drop(x, a), b) == Drop(x, a + b)
  {
    if a > 0 { DropDrop(x / 2, a - 1, b); }
  }

  lemma {:induction false} DropBound(x: nat, a: nat, b: nat)
    requires x < Pow2(a + b)
    ensures Drop(x, a) < Pow2(b)
  {
    if a > 0 { DropBound(x / 2, a - 1, b); }
  }

  lemma {:induction false} LiftBound(hi: nat, lo: nat, a: nat, b: nat)
    requires hi < Pow2(b) && lo < Pow2(a)
    ensures Lift(hi, a) + lo < Pow2(a + b)
  {
    if a > 0 { LiftBound(hi, lo / 2, a - 1, b); }
  }

  // ---- Bits ----

  lemma {:induction false} BitOfGate(g: Gate, n: nat, x: nat, y: nat, i: nat)
    requires i < n
    ensures Bit(Bitwise(g, n, x, y), i) == g.Out(Bit(x, i), Bit(y, i))
  {
    if i > 0 {
      assert Bitwise(g, n, x, y) / 2 == Bitwise(g, n - 1, x / 2, y / 2);
      BitOfGate(g, n - 1, x / 2, y / 2, i - 1);
    }
  }

  lemma {:induction false} BitExtensional(n: nat, x: nat, y: nat)
    requires x < Pow2(n) && y < Pow2(n)
    requires forall i :: 0 <= i < n ==> Bit(x, i) == Bit(y, i)
    ensures x == y
  {
    if n > 0 {
      assert Bit(x, 0) == Bit(y, 0);
      forall i | 0 <= i < n - 1
        ensures Bit(x / 2, i) == Bit(y / 2, i)
      {
        assert Bit(x, i + 1) == Bit(y, i + 1);
      }
      BitExtensional(n - 1, x / 2, y / 2);
    }
  }

  lemma {:induction false} BitOfDrop(x: nat, s: nat, i: nat)
    ensures Bit(Drop(x, s), i) == Bit(x, i + s)
  {
    if s > 0 { BitOfDrop(x / 2, s - 1, i); }
  }

  lemma {:induction false} BitOfKeep(x: nat, k: nat, i: nat)
    ensures Bit(Keep(x, k), i) == (i < k && Bit(x, i))
  {
    if k == 0 { BitAbove(0, 0, i); }
    else if i > 0 {
      assert Keep(x, k) / 2 == Keep(x / 2, k - 1);
      BitOfKeep(x / 2, k - 1, i - 1);
    }
  }

  lemma BitOfJoin(hi: nat, lo: nat, k: nat, i: nat)
    requires lo < Pow2(k)
    ensures Bit(Lift(hi, k) + lo, i) == if i < k then Bit(lo, i) else Bit(hi, i - k)
  {
    JoinSplit(hi, lo, k);
    if i < k { BitOfKeep(Lift(hi, k) + lo, k, i); } else { BitOfDrop(Lift(hi, k) + lo, k, i - k); }
  }

  lemma {:induction false} BitAbove(x: nat, k: nat, i: nat)
    requires x < Pow2(k) && i >= k
    ensures !Bit(x, i)
  {
    if k > 0 { BitAbove(x / 2, k - 1, i - 1); }
    else if i > 0 { BitAbove(x, 0, i - 1); }
  }

  lemma {:induction false} BitOfOnes(k: nat, i: nat)
    ensures Bit(Pow2(k) - 1, i) == (i < k)
  {
    if k == 0 { BitAbove(0, 0, i); }
    else if i > 0 {
      assert (Pow2(k) - 1) / 2 == Pow2(k - 1) - 1;
      BitOfOnes(k - 1, i - 1);
    }
  }

  lemma HalfOfFlip(p: nat, x: nat)
    ensures (2 * p - 1 - x) / 2 == p - 1 - x / 2 && (2 * p - 1 - x) % 2 == 1 - x % 2
  {
    DivUnique(2 * p - 1 - x, 2, p - 1 - x / 2, 1 - x % 2);
  }

  lemma {:induction false} BitOfFlip(k: nat, x: nat, i: nat)
    requires x < Pow2(k) && i < k
    ensures Bit(Pow2(k) - 1 - x, i) == !Bit(x, i)
  {
    HalfOfFlip(Pow2(k - 1), x);
    if i > 0 { BitOfFlip(k - 1, x / 2, i - 1); }
  }

  lemma {:induction false} BitOfFromBits(b: seq<bool>, i: nat)
    requires i < |b|
    ensures Bit(FromBits(b), i) == b[i]
  {
    if i > 0 {
      assert FromBits(b) / 2 == FromBits(b[1..]);
      BitOfFromBits(b[1..], i - 1);
    }
  }

  // ---- Word operators, bit by bit ----

  lemma BitOfAnd(x: Word, y: Word, i: nat)
    requires i < 32
    ensures Bit(And(x, y), i) == (Bit(x, i) && Bit(y, i))
  {
    BitOfGate(AND, 32, x, y, i);
  }

  lemma BitOfOr(x: Word, y: Word, i: nat)
    requires i < 32
    ensures Bit(Or(x, y), i) == (Bit(x, i) || Bit(y, i))
  {
    BitOfGate(OR, 32, x, y, i);
  }

  lemma BitOfNot(x: Word, i: nat)
    requires i < 32
    ensures Bit(Not(x), i) == !Bit(x, i)
  {
    Pow2Table();
    BitOfFlip(32, x, i);
  }

  lemma BitOfShl(x: Word, s: nat, i: nat)
    requires i < 32
    ensures Bit(Shl(x, s), i) == (s <= i && Bit(x, i - s))
  {
    Pow2Table();
    SplitIsDivMod(Lift(x, s), 32);
    BitOfKeep(Lift(x, s), 32, i);
    BitOfJoin(x, 0, s, i);
    BitAbove(0, 0, i);
  }

  lemma WordExtensional(x: Word, y: Word)
    requires forall i :: 0 <= i < 32 ==> Bit(x, i) == Bit(y, i)
    ensures x == y
  {
    Pow2Table();
    BitExtensional(32, x, y);
  }

  // ---- The idioms the executor is built from ----

  /** OR-ing a multiple of 2^k with a number below 2^k is addition. */
  lemma OrIsJoin(hi: nat, lo: nat, k: nat, h: Word, l: Word)
    requires lo < Pow2(k) && h == Lift(hi, k) && l == lo && h + l < 0x1_0000_0000
    ensures Or(h, l) == Or(l, h) == h + l
  {
    forall i | 0 <= i < 32
      ensures Bit(Or(h, l), i) == Bit(Or(l, h), i) == Bit(h + l, i)
    {
      BitOfOr(h, l, i);
      BitOfOr(l, h, i);
      BitOfJoin(hi, lo, k, i);
      BitOfJoin(hi, 0, k, i);
      BitAbove(0, 0, i);
      if i >= k { BitAbove(lo, k, i); }
    }
    WordExtensional(Or(h, l), h + l);
    WordExtensional(Or(l, h), h + l);
  }

  /** AND-ing with 2^n - 1 keeps the low n bits. */
  lemma AndLowMask(x: Word, n: nat, mask: Word)
    requires n <= 32 && mask == Pow2(n) - 1
    ensures And(x, mask) == And(mask, x) == Keep(x, n)
  {
    forall i | 0 <= i < 32
      ensures Bit(And(x, mask), i) == Bit(And(mask, x), i) == Bit(Keep(x, n), i)
    {
      BitOfAnd(x, mask, i);
      BitOfAnd(mask, x, i);
      BitOfOnes(n, i);
      BitOfKeep(x, n, i);
    }
    WordExtensional(And(x, mask), Keep(x, n));
    WordExtensional(And(mask, x), Keep(x, n));
  }

  lemma BitOfLift(x: nat, s: nat, i: nat)
    ensures Bit(Lift(x, s), i) == (s <= i && Bit(x, i - s))
  {
    BitOfJoin(x, 0, s, i);
    if i < s { BitAbove(0, 0, i); }
  }

  lemma FieldMaskAt(x: Word, l: nat, n: nat, mask: Word, i: nat)
    requires mask == Lift(Pow2(n) - 1, l) && i < 32
    ensures Bit(And(x, mask), i) == Bit(Lift(Keep(Drop(x, l), n), l), i)
  {
    hide And, Lift, Drop, Pow2;
    BitOfAnd(x, mask, i);
    BitOfLift(Pow2(n) - 1, l, i);
    BitOfLift(Keep(Drop(x, l), n), l, i);
    if i >= l {
      BitOfOnes(n, i - l);
      BitOfKeep(Drop(x, l), n, i - l);
      BitOfDrop(x, l, i - l);
    }
  }

  /** AND-ing with n ones at bit l isolates that field in place. */
  lemma AndFieldMask(x: Word, l: nat, n: nat, mask: Word)
    requires mask == Lift(Pow2(n) - 1, l)
    requires Lift(Keep(Drop(x, l), n), l) < 0x1_0000_0000
    ensures And(x, mask) == Lift(Keep(Drop(x, l), n), l)
  {
    hide And, Lift, Drop, Keep, Pow2;
    forall i | 0 <= i < 32
      ensures Bit(And(x, mask), i) == Bit(Lift(Keep(Drop(x, l), n), l), i)
    {
      FieldMaskAt(x, l, n, mask, i);
    }
    WordExtensional(And(x, mask), Lift(Keep(Drop(x, l), n), l));
  }

  // ---- The same with the powers of two as numbers ----

  lemma ShlBy(x: Word, s: nat, p: nat)
    requires p == Pow2(s)
    ensures Shl(x, s) == Wrap(x * p)
  {
    LiftIsMul(x, s);
  }

  lemma ShrBy(x: Word, s: nat, p: nat)
    requires p == Pow2(s)
    ensures Shr(x, s) == x / p
  {
    SplitIsDivMod(x, s);
  }

  lemma OrSum(hi: nat, lo: Word, k: nat, p: nat, h: Word)
    requires p == Pow2(k) && lo < p && h == hi * p && h + lo < 0x1_0000_0000
    ensures Or(h, lo) == Or(lo, h) == h + lo
  {
    LiftIsMul(hi, k);
    OrIsJoin(hi, lo, k, h, lo);
  }

  /** The field of width n at bit l, where p = 2^l and q = 2^n. */
  lemma AndField(x: Word, l: nat, n: nat, p: nat, q: nat, mask: Word)
    requires p == Pow2(l) && q == Pow2(n) && mask == (q - 1) * p
    ensures And(x, mask) == x / p % q * p
  {
    LiftIsMul(q - 1, l);
    SplitIsDivMod(x, l);
    SplitIsDivMod(Drop(x, l), n);
    var field := Keep(Drop(x, l), n);
    LiftIsMul(field, l);
    FieldFits(x, l, n);
    AndFieldMask(x, l, n, mask);
  }

  lemma FieldFits(x: nat, l: nat, n: nat)
    ensures Lift(Keep(Drop(x, l), n), l) <= x
  {
    SplitJoin(x, l);
    LiftLess(Keep(Drop(x, l), n), Drop(x, l), l);
  }

  lemma {:induction false} LiftLess(a: nat, b: nat, s: nat)
    ensures a <= b <==> Lift(a, s) <= Lift(b, s)
  {
    if s > 0 { LiftLess(a, b, s - 1); }
  }

  lemma AndOne(x: Word)
    ensures And(x, 1) == x % 2
  {
    AndField(x, 0, 1, 1, 2, 1);
  }

  lemma OrZero(x: Word)
    ensures Or(0, x) == Or(x, 0) == x
  {
    Pow2At32();
    OrSum(0, x, 32, 0x1_0000_0000, 0);
  }
}

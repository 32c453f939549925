/** The memory as a little-endian byte store. */
module MemoryLaws {
  import opened Words
  import opened Isa

  function NthByte(v: nat, k: nat): Byte {
    if k == 0 then v % 0x100 else NthByte(v / 0x100, k - 1)
  }

  lemma {:induction false} NthByteOfBytes(v: nat, n: nat, k: nat)
    requires k < n
    ensures Bytes(v, n)[k] == NthByte(v, k)
  {
    if k > 0 { NthByteOfBytes(v / 0x100, n - 1, k - 1); }
  }

  lemma {:induction false} NthByteOfLittleEndian(b: seq<Byte>, k: nat)
    requires k < |b|
    ensures NthByte(LittleEndian(b), k) == b[k]
  {
    DivUnique(LittleEndian(b), 0x100, LittleEndian(b[1..]), b[0]);
    if k > 0 { NthByteOfLittleEndian(b[1..], k - 1); }
  }

  /** A number below 256^n is determined by its n bytes. */
  lemma {:induction false} BytesOfLittleEndian(b: seq<Byte>)
    ensures Bytes(LittleEndian(b), |b|) == b
  {
    if b != [] {
      DivUnique(LittleEndian(b), 0x100, LittleEndian(b[1..]), b[0]);
      BytesOfLittleEndian(b[1..]);
    }
  }

  lemma {:induction false} KeepSplit(v: nat, a: nat, b: nat)
    ensures Keep(v, a + b) == Keep(v, a) + Lift(Keep(Drop(v, a), b), a)
  {
    if a > 0 { KeepSplit(v / 2, a - 1, b); }
  }

  lemma KeepByte(v: nat, b: nat)
    ensures Keep(v, 8 + b) == v % 0x100 + 0x100 * Keep(v / 0x100, b)
  {
    hide Keep, Drop, Lift, Pow2;
    Pow2Table();
    KeepSplit(v, 8, b);
    SplitAt(v, 8, 0x100);
    SplitAt(Keep(v / 0x100, b), 8, 0x100);
  }

  lemma {:induction false} LittleEndianOfBytes(v: nat, n: nat)
    ensures LittleEndian(Bytes(v, n)) == Keep(v, 8 * n)
  {
    if n > 0 {
      hide Keep;
      LittleEndianOfBytes(v / 0x100, n - 1);
      assert Bytes(v, n)[1..] == Bytes(v / 0x100, n - 1);
      KeepByte(v, 8 * (n - 1));
    }
  }

  /** Reading back a store gives the stored value cut to the width, for every accepted address. */
  lemma ReadBack(bus: Bus, mem: seq<Byte>, addr: Word, width: nat, v: Word)
    requires IsWidth(width) && Locate(bus, |mem|, addr, width).Ok?
    ensures var i := Locate(bus, |mem|, addr, width).value;
            Read(bus, Patch(mem, i, Bytes(v, width)), addr, width) == Ok(v % Pow2(8 * width))
  {
    hide Bytes, LittleEndian, Pow2;
    var i := Locate(bus, |mem|, addr, width).value;
    var mem' := Patch(mem, i, Bytes(v, width));
    assert mem'[i..i + width] == Bytes(v, width);
    LittleEndianOfBytes(v, width);
    SplitIsDivMod(v, 8 * width);
  }

  /** A read of any width anywhere after a store of any width anywhere: the bytes the two accesses share are
      the stored ones, the others are what they were. */
  lemma ReadOverlappingStore(bus: Bus, mem: seq<Byte>, addr: Word, width: nat, v: Word, addr': Word, width': nat,
                             k: nat)
    requires IsWidth(width) && IsWidth(width') && k < width'
    requires Locate(bus, |mem|, addr, width).Ok? && Locate(bus, |mem|, addr', width').Ok?
    ensures var mem' := Patch(mem, Locate(bus, |mem|, addr, width).value, Bytes(v, width));
            && Read(bus, mem', addr', width').Ok? && Read(bus, mem, addr', width').Ok?
            && NthByte(Read(bus, mem', addr', width').value, k)
               == if addr <= addr' + k < addr + width then NthByte(v, addr' + k - addr)
                  else NthByte(Read(bus, mem, addr', width').value, k)
  {
    hide Bytes, LittleEndian, NthByte, Patch;
    var i, j := Locate(bus, |mem|, addr, width).value, Locate(bus, |mem|, addr', width').value;
    var mem' := Patch(mem, i, Bytes(v, width));
    PatchAt(mem, i, Bytes(v, width), j + k);
    NthByteOfLittleEndian(mem'[j..j + width'], k);
    NthByteOfLittleEndian(mem[j..j + width'], k);
    assert mem'[j..j + width'][k] == mem'[j + k] && mem[j..j + width'][k] == mem[j + k];
    if i <= j + k < i + width { NthByteOfBytes(v, width, j + k - i); }
  }

  lemma PatchAt(mem: seq<Byte>, i: nat, b: seq<Byte>, k: nat)
    requires i + |b| <= |mem| && k < |mem|
    ensures |Patch(mem, i, b)| == |mem|
    ensures Patch(mem, i, b)[k] == if i <= k < i + |b| then b[k - i] else mem[k]
  {}

  /** A store changes neither which accesses are accepted nor the error of the others. */
  lemma StoreKeepsErrors(bus: Bus, mem: seq<Byte>, i: nat, b: seq<Byte>, addr: Word, width: nat)
    requires i + |b| <= |mem| && IsWidth(width)
    ensures Locate(bus, |Patch(mem, i, b)|, addr, width) == Locate(bus, |mem|, addr, width)
    ensures Read(bus, Patch(mem, i, b), addr, width).Err? ==>
            Read(bus, Patch(mem, i, b), addr, width) == Read(bus, mem, addr, width)
  {
    hide LittleEndian;
  }

  predicate AlignedFor(bus: Bus, addr: Word, width: nat) {
    bus.aligned && width > 1 ==> addr % width == 0
  }

  /** The access lies inside a buffer of this size, at an address the memory answers for. */
  predicate Inside(bus: Bus, size: nat, addr: Word, width: nat) {
    bus.offset <= addr && addr - bus.offset + width <= size
  }

  /** The bounds check agrees with "aligned as required and inside the buffer" on all accesses but those inside
      the buffer that end at or after its size cut to 32 bits. In a buffer below 4 GiB only an access that ends
      exactly at the buffer's end does. */
  lemma StrictBoundsIff(bus: Bus, size: nat, addr: Word, width: nat)
    requires IsWidth(width)
    ensures (Locate(bus, size, addr, width).Ok? <==> AlignedFor(bus, addr, width) && Inside(bus, size, addr, width))
       <==> !(&& AlignedFor(bus, addr, width) && Inside(bus, size, addr, width)
              && size % TWO32 <= addr - bus.offset + width)
    ensures size < TWO32 && Inside(bus, size, addr, width) && size % TWO32 <= addr - bus.offset + width ==>
              addr - bus.offset + width == size
  {}

  /** The first word of a buffer of 4 GiB and 4 bytes is aligned and far from the buffer's end, and refused. */
  lemma LargeBufferCounterexample()
    ensures Inside(Bus(0, true), 0x1_0000_0004, 0, 4) && AlignedFor(Bus(0, true), 0, 4)
    ensures Locate(Bus(0, true), 0x1_0000_0004, 0, 4) == Err(OutOfBoundsAccess)
    ensures Locate(Bus(0, false), 0x1_0000_0008, 8, 4) == Err(OutOfBoundsAccess)
  {}

  /** The only word of a four-byte memory cannot be accessed. */
  lemma StrictBoundsCounterexample()
    ensures Locate(Bus(0, false), 4, 0, 4) == Err(OutOfBoundsAccess)
  {}

  /** The access of this width at addr is accepted and covers buffer index k. */
  predicate Touches(bus: Bus, size: nat, k: nat, addr: Word, width: nat) {
    IsWidth(width) && Locate(bus, size, addr, width).Ok? && addr - bus.offset <= k < addr - bus.offset + width
  }

  /** Buffer index k is below the last one of the buffer's size cut to 32 bits, and it has a 32-bit address, or
      lies at most three bytes past the last 32-bit address, where an unaligned halfword or word that starts
      below still covers it. */
  predicate Reachable(bus: Bus, size: nat, k: nat) {
    && k + 1 < size % TWO32
    && (|| bus.offset + k < TWO32
        || (!bus.aligned && bus.offset + k == TWO32)
        || (!bus.aligned && bus.offset + k <= TWO32 + 2 && (k >= 3 || k + 2 < size % TWO32)))
  }

  /** An access that touches a reachable index: its own byte if that has an address, and otherwise the narrowest
      access that fits and starts low enough. */
  function TouchingAccess(bus: Bus, size: nat, k: nat): (access: (int, nat))
    requires Reachable(bus, size, k)
  {
    var a := bus.offset + k;
    if a < TWO32 then (a, 1)
    else if a == TWO32 then (a - 1, 2)
    else if k >= 3 then (a - 3, 4)
    else (a - 2, 4)
  }

  lemma ReachableIsTouched(bus: Bus, size: nat, k: nat)
    requires Reachable(bus, size, k)
    ensures var (addr, width) := TouchingAccess(bus, size, k);
            0 <= addr < TWO32 && Touches(bus, size, k, addr, width)
  {}

  lemma AlignedEnd(addr: Word, width: nat)
    requires IsWidth(width) && (width > 1 ==> addr % width == 0)
    ensures addr + width <= TWO32
  {}

  lemma TouchedIsReachable(bus: Bus, size: nat, k: nat, addr: Word, width: nat)
    requires Touches(bus, size, k, addr, width)
    ensures Reachable(bus, size, k)
  {
    if bus.aligned { AlignedEnd(addr, width); }
  }

  /** Exactly which buffer indices some access, of any width, reaches. The last one of the truncated size is never
      among them, and a buffer of a multiple of 4 GiB has none at all. */
  lemma ReachableByteIff(bus: Bus, size: nat, k: nat)
    ensures (exists addr: Word, width: nat :: Touches(bus, size, k, addr, width)) <==> Reachable(bus, size, k)
    ensures k + 1 == size % TWO32 || size % TWO32 == 0 ==> !Reachable(bus, size, k)
  {
    hide Touches, Reachable;
    if Reachable(bus, size, k) {
      ReachableIsTouched(bus, size, k);
      var (addr, width) := TouchingAccess(bus, size, k);
      assert Touches(bus, size, k, addr, width);
    }
    forall addr: Word, width: nat | Touches(bus, size, k, addr, width)
      ensures Reachable(bus, size, k)
    {
      TouchedIsReachable(bus, size, k, addr, width);
    }
    LastIsUnreachable(bus, size, k);
  }

  lemma LastIsUnreachable(bus: Bus, size: nat, k: nat)
    ensures k + 1 == size % TWO32 || size % TWO32 == 0 ==> !Reachable(bus, size, k)
  {}

  /** A word access at 0xFFFF_FFFE covers two bytes that have no address of their own. */
  lemma BeyondLastAddress()
    ensures Touches(Bus(0xFFFF_FFF0, false), 0x40, 0x10, 0xFFFF_FFFE, 4)
    ensures forall addr: Word :: !Touches(Bus(0xFFFF_FFF0, false), 0x40, 0x10, addr, 1)
  {}

  /** A load from the address just stored to, with the same width, delivers the stored low bits extended the
      way the load says: LB and LH after SB and SH sign-extend, LBU and LHU zero-extend, LW reads the word. */
  lemma LoadAfterStore(env: Env, width: nat, signed: bool, rt: Reg, rt': Reg, rs: Reg, offset: int,
                       gpr: Gpr, pc: Word, pc': Word, mem: seq<Byte>)
    requires IsWidth(width)
    requires Meaning(env, Store(width, rt, rs, offset), gpr, pc, mem).Succeeds()
    ensures Meaning(env, Load(width, signed, rt', rs, offset), gpr, pc',
                    ApplyMem(Meaning(env, Store(width, rt, rs, offset), gpr, pc, mem), mem))
         == Set(rt', LoadedValue(gpr[rt] % Pow2(8 * width), width, signed))
  {
    hide Read, Bytes, LoadedValue, Wrap;
    ReadBack(env.bus, mem, Wrap(gpr[rs] + offset), width, gpr[rt]);
  }

  /** The sign extension of a loaded byte or halfword, as a signed number. */
  lemma SignedLoad(v: Word, width: nat)
    requires IsWidth(width) && v < Pow2(8 * width)
    ensures Signed(LoadedValue(v, width, true)) == if 2 * v < Pow2(8 * width) then v else v - Pow2(8 * width)
    ensures LoadedValue(v, width, false) == v
  {
    Pow2Table();
  }
}

# A verified model of the MIPS32 Release 6 emulator

The emulator interprets the integer instructions of MIPS32 Release 6. Its four headers become four parts here,
and a fifth part says what they are for:

| file | part |
|---|---|
| `words.dfy` | 32-bit words as integers, C++'s `&`, `\|`, `^`, `~`, `<<`, `>>` on them, and their bit-level laws |
| `instruction.dfy` | the instruction word: bit-field layouts, the constructors, the classifier `GetType` |
| `register_file.dfy` | class `RegisterFile`: 32 registers in an array, the program counter, the pending branch |
| `memory.dfy` | class `Memory`: a byte array behind an address offset |
| `bit_tricks.dfy` | the branch-free expressions and loops of the handlers, each with the proof of its integer meaning |
| `executor.dfy` | the handlers and `Step`, in the source's shape: they change a `RegisterFile` and a `Memory` in place |
| `isa.dfy` | the reference machine: one mnemonic per instruction, its meaning over integers, one step, a run |
| `runs.dfy` | what every step and every run keeps |
| `assembly.dfy` | from a mnemonic to the constructor call that builds its word, and back |
| `mnemonics.dfy` | what every implemented word does, opcode by opcode, in numbers and bits |
| `arithmetic.dfy`, `branches.dfy`, `memory_laws.dfy` | laws of the computed values, of control transfers, of the byte store |

The centre is `Executor.Step`: for every register file, memory and host, one step of the imperative code is
exactly one step of `Isa.Step`. `Isa` uses no mask and no shift trick (bitwise operators occur only as the meaning
of AND, OR, XOR, NOR and of the undefined shifts by 32). It disassembles the word into a mnemonic (`Disassemble`),
gives that an effect (`Meaning`: which register is written, where control goes, which bytes are stored) and applies
it. `Executor.StepTimes` extends this to runs of any length, so that the laws about runs are laws about the
emulator. What `Isa` itself says is pinned in `mnemonics.dfy`: for every implemented opcode and function, a law on
raw words gives the register written and the value, the branch condition and target, or the bytes stored, without
naming `Isa`'s value functions. `Assembly.AssembledStep` closes the circle from the constructors: an instruction
that is built, stored and stepped has its meaning.

A word is an integer below 2^32; `Wrap` is the conversion to `uint32_t` and `Signed` the two's-complement
reading. Bitwise operators are defined bit by bit. Conditions that the MIPS manual writes as a comparison with
zero appear in the mnemonics as a comparison with `$0`, so that `Branch(GE, 0, rs)` is BLEZ. `hide` statements in
proofs only keep the solver from unfolding definitions it does not need.

## Assumptions

- The host is little-endian, `size_t` has 64 bits, signed overflow and left shifts of signed numbers wrap, and
  the right shift of an `int64_t` is arithmetic.
- Two results that C++ leaves undefined are a parameter (`Host`) of every definition: the word that shifting left by
  32 gives (SRA, SRAV, ROTR and ROTRV with amount 0), and the quotient and remainder of INT32_MIN / -1. The
  theorems hold for every value of the parameter.
- The register file's initial cause, which the source leaves uninitialised, is a constructor argument.
- Memory has no MMIO handler (`NullMMIO`). `aligned_access` is a constructor argument.

## Departures from the source's comments and from the instruction set manual

The model follows the code. These departures are stated as theorems that say exactly when the two agree, each with
a concrete input on which they do not:

- ADDIUPC, LWPC, AUIPC and ALUIPC are said to add to their own address. `step` advances the program counter first,
  so the code adds to the address of the next instruction due: the pending branch target in a delay slot, and
  otherwise their own address plus four. AUIPC writes the promised sum if and only if the two addresses are equal,
  which takes a delay slot whose branch leads back to it (`UpperPcPromiseIff`), and ALUIPC if and only if they lie
  in the same 64K block (`AlignedUpperPcPromiseIff`).
- ADDIUPC and LWPC are also said to sign-extend their distance; the code tests a bit that is always clear
  (`PcRelExtensionIff`). Together with the base: they form the promised address if and only if the next address due
  is their own, for a distance that is not negative, or 2 MB below their own, for a negative one
  (`AddPcPromiseIff`, `LoadPcPromiseIff`). With no branch pending they never do.
- BOVC and BNVC branch on a flag that is signed overflow if and only if the operands have the same sign
  (`OverflowFlagExactIff`).
- JIALC links before it reads its base register, so it goes to base plus offset if and only if the base is not
  `$31` or `$31` already held the link (`IndexedLinkIff`).
- JALR links `$31`. The registers are those of linking its rd field if and only if that field is 31, or both
  registers already held the link, with rd = 0 asking for nothing (`JalrLinkIff`).
- A linking conditional branch (BLEZALC, BGEZALC, BGTZALC, BLTZALC, BEQZALC, BNEZALC) links if and only if it is
  taken, so `$31` holds the link afterwards if and only if it is taken or `$31` held it before
  (`ConditionalLinkIff`).
- ADD and SUB never trap. They write the exact signed result if and only if it is in range (`AddWrapsIff`).
- The bounds check is strict and compares with the buffer's size cut to 32 bits: it refuses an aligned access
  inside the buffer if and only if the access ends at or after that cut size (`StrictBoundsIff`). Below 4 GiB that
  is an access that ends exactly at the buffer's end, so the last byte is never accessible; a buffer of exactly
  4 GiB has no accessible byte. `ReachableByteIff` says which bytes are.

Two more are not conditional. JAL and JALR always link the address of their own delay slot (`LinkIsTheSlot`), and
AUI passes an already shifted immediate to the 16-bit sign extension, which leaves it unchanged
(`SignExtendShifted`). The list is not meant to be complete: reserved field values that the code ignores are not
in it.

## Model

| member | source | states |
|---|---|---|
| Executor.Step | include/mips-emulator/executor.hpp:892-948 | Registers, program counter, pending branch, trap state, memory bytes and the returned flag after a step are those of the reference machine's step, for every state, memory and host. |
| Executor.StepTimes | include/mips-emulator/emulator.hpp:20-22 | Any number of calls of step takes the run of that length of the reference machine, failed steps included. |
| Executor.Dispatch | include/mips-emulator/executor.hpp:905-947 | After the program counter has advanced, classifying the word and calling one handler performs exactly the effect of the word's mnemonic on registers and memory, and fails exactly when that effect fails. |
| Executor.ClassifierAgrees | include/mips-emulator/executor.hpp:909-947 | On all 2^32 words, the handler chosen by `get_type` is the one whose table implements the word; unclassified and FPU words have no mnemonic. |
| Executor.HandleRType | include/mips-emulator/executor.hpp:16-229 | Every R-type word has its mnemonic's effect on the register file, including division by zero, traps and the default. |
| Executor.ArithmeticValue | include/mips-emulator/executor.hpp:42-110 | The values of the arithmetic cases are those of the word's mnemonic, which `Mnemonics` (`Sums` to `LeadingCounts`) gives per word; None exactly on a zero divisor. |
| Executor.ShiftedValue | include/mips-emulator/executor.hpp:117-179 | The values of the six shift functions, with ROTR and ROTRV told apart by one field bit and variable amounts cut to five bits; `Mnemonics.LeftShifts`, `RightShifts` and `ArithmeticShifts` give them bit by bit. |
| Executor.TrapOnCond | include/mips-emulator/executor.hpp:34-40 | A true condition records the instruction and the trap cause and fails; a false one changes nothing and succeeds. |
| Executor.JumpOrTrap | include/mips-emulator/executor.hpp:99-223 | JR, JALR, the six traps and the default; `Mnemonics.Traps` writes the conditions out. |
| Executor.Decide | include/mips-emulator/executor.hpp:261-474 | BEQ, BNE and POP06/07/10/30/26/27: the nested field tests select the mnemonic's branch, delayed, compact or linking; `Mnemonics.EqualityBranches` to `Pop27Branches` write the conditions out. |
| Executor.ImmediateValue | include/mips-emulator/executor.hpp:275-312 | ADDIU, AUI, SLTI, SLTIU, ANDI, ORI, XORI computed with the sign-extension trick have the values of their mnemonics; `Mnemonics.ImmediateSums`, `ImmediateComparisons` and `ImmediateBits` give them per word. |
| Executor.IndexedCase | include/mips-emulator/executor.hpp:475-513 | POP66 and POP76: JIC, JIALC (which reads its base after linking), BEQZC, BNEZC. |
| Executor.HandleIType | include/mips-emulator/executor.hpp:247-519 | The register-only I-type handler performs the mnemonic's effect; loads and stores reach its default. |
| Executor.LoadVal | include/mips-emulator/executor.hpp:541-565 | A load writes the extended value of the accepted access to rt, or fails and changes nothing. |
| Executor.StoreVal | include/mips-emulator/executor.hpp:532-538 | A store changes exactly the bytes of the accepted access to the low bytes of rt, or fails and changes nothing. |
| Executor.HandleITypeWithMemory | include/mips-emulator/executor.hpp:521-584 | The I-type handler with a memory performs the mnemonic's effect on registers and memory. |
| Executor.HandleJType | include/mips-emulator/executor.hpp:586-626 | J, JAL, BC, BALC: region and 26-bit relative targets, link, delay. |
| Executor.HandleSpecial3Bshfl | include/mips-emulator/executor.hpp:627-709 | BITSWAP, WSBH, ALIGN, SEB, SEH and the default; `Mnemonics.Swaps`, `Alignment` and `SignExtensions` give the values. |
| Executor.HandleSpecial3Ext | include/mips-emulator/executor.hpp:711-732 | EXT writes the extracted field, and fails exactly when lsb + msbd > 31. |
| Executor.HandleSpecial3Ins | include/mips-emulator/executor.hpp:734-760 | INS writes the word with the field replaced, and fails exactly when msb < lsb, although the width is an unsigned difference that wraps. |
| Executor.FieldEffects | include/mips-emulator/executor.hpp:718-724 | Exactly when EXT and INS are accepted, in terms of lsb, msbd and msb. |
| Executor.HandleRegimmIType | include/mips-emulator/executor.hpp:762-794 | BGEZ, BLTZ and the default. |
| Executor.HandlePcRelType1 | include/mips-emulator/executor.hpp:796-845 | ADDIUPC and LWPC at the advanced pc plus four times the unsigned 19-bit field. |
| Executor.HandlePcRelType2 | include/mips-emulator/executor.hpp:847-890 | AUIPC and ALUIPC, the latter cut to a 64K boundary. |
| BitTricks.SignExtendMeaning | include/mips-emulator/executor.hpp:231-245 | Multiplying a run of ones by the sign bit and OR-ing is two's-complement sign extension, for every field width below 32. |
| BitTricks.SignExtendShifted | include/mips-emulator/executor.hpp:280-284 | The extension leaves an immediate that was already shifted by 16 unchanged. |
| BitTricks.HiMulMeaning | include/mips-emulator/executor.hpp:8-14 | The 64-bit product never wraps, so its upper half is the rounded-down exact quotient by 2^32, signed and unsigned. |
| BitTricks.MulMeaning | include/mips-emulator/executor.hpp:59-68 | The low word is the same for signed and unsigned operands. |
| BitTricks.SraMeaning | include/mips-emulator/executor.hpp:129-157 | OR-ing the sign mask over a logical shift is division of the signed value by 2^s rounding down, for s from 1 to 31; for 0 it depends on the host. |
| BitTricks.RotrMeaning | include/mips-emulator/executor.hpp:158-179 | The OR of the two shifts is the rotation, for amounts 1 to 31; for 0 it depends on the host. |
| BitTricks.CountLeadingZeros | include/mips-emulator/executor.hpp:188-201 | The loop ends within 32 iterations and returns 32 minus the bit length. |
| BitTricks.CountLeadingOnes | include/mips-emulator/executor.hpp:202-215 | The loop ends within 32 iterations and returns the leading zeros of the complement. |
| BitTricks.ReverseByteBitsAt | include/mips-emulator/executor.hpp:642-647 | Three masked exchanges put bit 7 - i of a byte at bit i. |
| BitTricks.SwapBits | include/mips-emulator/executor.hpp:639-657 | The loop over the four bytes reverses the bits of each of them. |
| BitTricks.ReverseBytesAt | include/mips-emulator/executor.hpp:639-657 | BITSWAP sends bit 8k + j to bit 8k + 7 - j. |
| BitTricks.WsbhMeaning | include/mips-emulator/executor.hpp:658-666 | Four masks, shifts and ORs exchange the bytes of each halfword. |
| BitTricks.AlignMeaning | include/mips-emulator/executor.hpp:667-690 | ALIGN is the high word of the 64-bit concatenation rt:rs shifted left by bp bytes. |
| BitTricks.ExtractMeaning | include/mips-emulator/executor.hpp:726-730 | Mask and shift extract the field of the given width at lsb, width 32 included. |
| BitTricks.InsertMeaning | include/mips-emulator/executor.hpp:750-758 | Mask, clear and OR replace exactly the field at lsb. |
| BitTricks.OverflowMeaning | include/mips-emulator/executor.hpp:393-400 | Carry differs from sign bit exactly when the operand signs differ or the signed sum leaves the 32-bit range. |
| BitTricks.RegionMeaning | include/mips-emulator/executor.hpp:592-595 | The jump address is four times the field inside the 256 MB region of the advanced pc. |
| BitTricks.PcRelMeaning | include/mips-emulator/executor.hpp:803-809 | The address is pc plus four times the unsigned field: the sign extension never fires. |
| BitTricks.ClearLowHalf | include/mips-emulator/executor.hpp:869-874 | The mask rounds down to a multiple of 64K. |
| RegisterFiles.RegisterFile.constructor | include/mips-emulator/register_file.hpp:112-125 | A new register file holds zeros and no pending branch. |
| RegisterFiles.RegisterFile.Get | include/mips-emulator/register_file.hpp:53-56 | Any 8-bit index reads the register of its low five bits. |
| RegisterFiles.RegisterFile.SetUnsigned | include/mips-emulator/register_file.hpp:63-69 | Any 8-bit index writes the register of its low five bits, $0 stays zero, nothing else changes. |
| RegisterFiles.RegisterFile.ZeroAll | include/mips-emulator/register_file.hpp:83-86 | All 32 registers are zero afterwards. |
| RegisterFiles.RegisterFile.DelayedBranch | include/mips-emulator/register_file.hpp:88-91 | A branch is pending; the program counter does not move. |
| RegisterFiles.RegisterFile.UpdatePc | include/mips-emulator/register_file.hpp:93-97 | The wrapping multiplication by the flag selects the pending target or the next word, and nothing stays pending. |
| RegisterFiles.RegisterFile.SignalException | include/mips-emulator/register_file.hpp:101-105 | Only the recorded instruction and cause change. |
| Isa.Locate | include/mips-emulator/memory.hpp:154-159 | An accepted access lies strictly inside the buffer, at the address minus the offset. |
| Memories.Memory.IsAligned | include/mips-emulator/memory.hpp:149-152 | The mask test is divisibility by the width. |
| Memories.Memory.IsInBounds | include/mips-emulator/memory.hpp:154-159 | The wrapping difference and the order of the two tests amount to one integer condition. |
| Memories.Memory.Check | include/mips-emulator/memory.hpp:33-49 | Which error, if any, an access gives: alignment is tested first. |
| Memories.Memory.Read | include/mips-emulator/memory.hpp:28-54 | The little-endian value of the accessed bytes, or the error. |
| Memories.Memory.Store | include/mips-emulator/memory.hpp:78-105 | Exactly the bytes of the access become the low bytes of the value; on error no byte changes. |
| Mnemonics.EffectOnMachine | include/mips-emulator/executor.hpp:892-948 | The machine after any fetched word, effect by effect: success, every register and byte, pc, pending branch; a trap records the word and cause 13 and fails. |
| Mnemonics.Sums | include/mips-emulator/executor.hpp:43-58 | ADD, ADDU, SUB and SUBU words write the sum or difference modulo 2^32 to rd. |
| Mnemonics.LowProducts | include/mips-emulator/executor.hpp:59-68 | MUL and MULU words write the product modulo 2^32, the same for both readings of the operands. |
| Mnemonics.HighProducts | include/mips-emulator/executor.hpp:59-68 | MUH words write the word that completes the exact signed product, MUHU words the unsigned one. |
| Mnemonics.SignedDivisions | include/mips-emulator/executor.hpp:69-75 | DIV words write the q whose rest a - q * b, and MOD words the r whose a - r is a multiple of b, such that the rest is below b in size and zero or of the sign of a; a zero divisor fails, and INT32_MIN / -1 gives the host's word. |
| Mnemonics.UnsignedDivisions | include/mips-emulator/executor.hpp:76-82 | The same for DIVU and MODU words. |
| Mnemonics.BitwiseWords | include/mips-emulator/executor.hpp:83-98 | AND, OR, XOR and NOR words, bit by bit. |
| Mnemonics.Selections | include/mips-emulator/executor.hpp:103-187 | SLT, SLTU, SELEQZ and SELNEZ words, with the comparison written out. |
| Mnemonics.LeadingCounts | include/mips-emulator/executor.hpp:188-215 | CLZ words write the length of the run of zeros at the top of rs, CLO words that of the run of ones. |
| Mnemonics.LeftShifts | include/mips-emulator/executor.hpp:117-128 | SLL and SLLV words: bit i comes from bit i - s, zeros below; SLLV takes s from the low five bits of rs. |
| Mnemonics.RightShifts | include/mips-emulator/executor.hpp:158-179 | SRL, SRLV, ROTR and ROTRV words: bit i comes from bit i + s, with zeros or around the word; which of the two is one field bit. |
| Mnemonics.ArithmeticShifts | include/mips-emulator/executor.hpp:129-157 | SRA and SRAV words write the signed operand divided by 2^s rounded down, and by 0 what the host gives for a negative one. |
| Mnemonics.Traps | include/mips-emulator/executor.hpp:218-223 | TGE, TGEU, TLT, TLTU, TEQ and TNE words trap exactly on their comparison of rs with rt. |
| Mnemonics.RegisterJumps | include/mips-emulator/executor.hpp:99-116 | JR and JALR words go to the register's address after the slot, JALR linking $31. |
| Mnemonics.ImmediateSums | include/mips-emulator/executor.hpp:275-285 | ADDIU words add the sign-extended immediate, AUI words the immediate times 2^16. |
| Mnemonics.ImmediateComparisons | include/mips-emulator/executor.hpp:286-297 | SLTI words compare with the signed immediate, SLTIU words with the word it extends to. |
| Mnemonics.ImmediateBits | include/mips-emulator/executor.hpp:298-312 | ANDI, ORI and XORI words bit by bit, the immediate having zeros above bit 15. |
| Mnemonics.EqualityBranches | include/mips-emulator/executor.hpp:262-274 | BEQ and BNE words branch after the slot exactly when the registers are equal or differ. |
| Mnemonics.Pop06Branches | include/mips-emulator/executor.hpp:315-345 | BLEZ, BLEZALC, BGEZALC and BGEUC words by their fields: condition on the register values, target, delay, link. |
| Mnemonics.Pop07Branches | include/mips-emulator/executor.hpp:346-377 | BGTZ, BGTZALC, BLTZALC and BLTUC words. |
| Mnemonics.EqualOrOverflowBranches | include/mips-emulator/executor.hpp:378-427 | BOVC, BEQZALC, BEQC, BNVC, BNEZALC and BNEC words. |
| Mnemonics.Pop26Branches | include/mips-emulator/executor.hpp:428-450 | BLEZC, BGEZC and BGEC words; nothing with rt = 0. |
| Mnemonics.Pop27Branches | include/mips-emulator/executor.hpp:451-474 | BGTZC, BLTZC and BLTC words; nothing with rt = 0. |
| Mnemonics.Pop66And76 | include/mips-emulator/executor.hpp:475-513 | BEQZC and BNEZC words with 21 bits of offset; JIC and JIALC words. |
| Mnemonics.RegimmBranches | include/mips-emulator/executor.hpp:773-788 | BGEZ and BLTZ words. |
| Mnemonics.LongJumps | include/mips-emulator/executor.hpp:598-618 | J, JAL, BC and BALC words: target, delay, link. |
| Mnemonics.ByteLoads | include/mips-emulator/executor.hpp:541-573 | LB words sign-extend the accessed byte, LBU words zero-extend it. |
| Mnemonics.HalfwordLoads | include/mips-emulator/executor.hpp:541-574 | LH and LHU words read two bytes, low byte first, and extend them. |
| Mnemonics.WordLoads | include/mips-emulator/executor.hpp:541-571 | LW words read four bytes, low byte first. |
| Mnemonics.Stores | include/mips-emulator/executor.hpp:532-578 | SB, SH and SW words store the low one, two or four bytes of rt, low byte first, or fail. |
| Mnemonics.Swaps | include/mips-emulator/executor.hpp:639-666 | BITSWAP words send bit 8k + j to 8k + 7 - j, WSBH words exchange the bytes of each halfword. |
| Mnemonics.Alignment | include/mips-emulator/executor.hpp:667-690 | ALIGN words take rt moved up by bp bytes and the top bp bytes of rs below it. |
| Mnemonics.SignExtensions | include/mips-emulator/executor.hpp:691-704 | SEB and SEH words write the signed value of the low byte or halfword. |
| Mnemonics.Extraction | include/mips-emulator/executor.hpp:711-732 | EXT words move the field down bit by bit, and fail when it does not fit. |
| Mnemonics.Insertion | include/mips-emulator/executor.hpp:734-760 | INS words take bits lsb to msb from rs and all others from rt, and fail when lsb is above msb. |
| Mnemonics.PcRelativeWords | include/mips-emulator/executor.hpp:796-890 | ADDIUPC, LWPC, AUIPC and ALUIPC words, from the advanced pc. |
| MemoryLaws.BytesOfLittleEndian | include/mips-emulator/memory.hpp:51-53 | Splitting a little-endian value into its bytes gives back the bytes it was read from. |
| MemoryLaws.ReadBack | include/mips-emulator/memory.hpp:78-105 | Reading back a store of any width gives the value cut to the width, for every accepted address. |
| MemoryLaws.ReadOverlappingStore | include/mips-emulator/memory.hpp:28-105 | Every byte of a read after a store is the stored one where the two accesses overlap and the old one elsewhere, for all pairs of widths and addresses. |
| MemoryLaws.StoreKeepsErrors | include/mips-emulator/memory.hpp:78-105 | A store changes neither which accesses are accepted nor any error. |
| MemoryLaws.StrictBoundsIff | include/mips-emulator/memory.hpp:154-159 | For buffers of every size, the check differs from "aligned as required and inside the buffer" if and only if the access is such a one and ends at or after the size cut to 32 bits; below 4 GiB that is exactly at the buffer's end. |
| MemoryLaws.StrictBoundsCounterexample | include/mips-emulator/memory.hpp:154-159 | The only word of a four-byte memory cannot be accessed. |
| MemoryLaws.LargeBufferCounterexample | include/mips-emulator/memory.hpp:154-159 | In a buffer of 4 GiB and 4 bytes the aligned first word, far from the end, is refused. |
| MemoryLaws.ReachableByteIff | include/mips-emulator/memory.hpp:28-159 | Exactly which buffer bytes some access of any width reaches: of the indices below the last one of the size cut to 32 bits, those that have a 32-bit address, and up to three further ones that an unaligned wider access starting below still covers; none when the cut size is 0. |
| MemoryLaws.BeyondLastAddress | include/mips-emulator/memory.hpp:28-159 | A word access at 0xFFFFFFFE covers a byte that no one-byte access reaches. |
| MemoryLaws.LoadAfterStore | include/mips-emulator/executor.hpp:532-578 | LB, LBU, LH, LHU and LW after the store of the same width and address deliver the stored low bits, extended the way the load says. |
| MemoryLaws.SignedLoad | include/mips-emulator/executor.hpp:541-552 | The extension of a loaded value as a signed number. |
| Runs.RunSimulatesClassic | include/mips-emulator/register_file.hpp:88-97 | Every run, failures included, is a run of the two-program-counter delay-slot machine with npc = pending target or pc + 4. |
| Runs.StepSimulatesClassic | include/mips-emulator/executor.hpp:892-948 | One step, state and success, of the two machines. |
| Runs.PendingIffDelayedBranch | include/mips-emulator/register_file.hpp:88-97 | At every point of a run a branch is pending exactly when the last fetched word is a delayed branch whose condition held on the registers before it, JR, JALR, J or JAL, with the target of that instruction; the machine left the due address exactly for the target of a compact branch whose condition held, JIC or JIALC. |
| Runs.DelaySlot | include/mips-emulator/executor.hpp:892-948 | After a taken delayed branch comes the instruction already due, then the target, unless the slot holds a compact branch whose condition holds, JIC or JIALC; a slot that cannot be fetched stops the machine. |
| Runs.LinkIsTheSlot | include/mips-emulator/executor.hpp:111-116 | JAL and JALR link the address of their delay slot. |
| Runs.FailedStepIsAtomic | include/mips-emulator/executor.hpp:892-948 | A failed step changes no register and no byte: nothing at all after a fetch failure, only the advanced pc otherwise, and the trap record after a trap. |
| Runs.FailedRunIsAtomic | include/mips-emulator/executor.hpp:892-948 | Any number of failed steps in a row leaves every register and every byte as they were. |
| Runs.FetchFailureAbsorbs | include/mips-emulator/executor.hpp:896-900 | After a fetch failure the machine is stuck for every later step. |
| Runs.StandsStillIff | include/mips-emulator/executor.hpp:892-948 | A failed step leaves the whole machine as it was if and only if it was the fetch that failed. |
| Runs.ImplementedIsDisassembled | include/mips-emulator/instruction.hpp:521-606 | Exactly which of the 2^32 words are implemented, as conditions on their fields. |
| Runs.FamiliesWithoutDefault | include/mips-emulator/instruction.hpp:521-606 | No word classified as I-type, long-immediate, J-type or PC-relative type 1 reaches a default; every FPU and unclassified word fails. |
| Runs.EffectSucceeds | include/mips-emulator/executor.hpp:34-82 | Exactly what an implemented instruction needs from the state: a non-zero divisor, a false trap condition, an accepted access. |
| Runs.StepSucceedsIff | include/mips-emulator/executor.hpp:892-948 | A step succeeds if and only if pc can be read, the word is implemented, and its need is met. |
| Runs.RunInvariants | include/mips-emulator/register_file.hpp:63-81 | At every point of every run $0 is zero, the memory has its size, and the same accesses are accepted. |
| Runs.OneChangeAtATime | include/mips-emulator/executor.hpp:892-948 | Between two points of a run at most one register changes, or else only bytes of one access of 1, 2 or 4 bytes inside the buffer, never both. |
| Runs.StepReadsOnly | include/mips-emulator/executor.hpp:892-948 | A step depends on no memory byte but those of its instruction word and of its own load. |
| Runs.HostMattersIff | include/mips-emulator/executor.hpp:69-179 | A step depends on the Host parameter if and only if it executes SRA or SRAV by 0 on a negative word, a rotation by 0, or INT32_MIN / -1, writes a register other than $0, and the host's word can change the result. |
| Runs.RunsAgree | include/mips-emulator/executor.hpp:69-179 | A run without such a step is the same on every host. |
| Runs.StepAlignedIff | include/mips-emulator/executor.hpp:892-948 | From an aligned pc and target, a step leads to aligned ones if and only if it executes no register-indirect jump to a misaligned target. |
| Runs.RunAlignedIff | include/mips-emulator/executor.hpp:892-948 | The same for runs of any length. |
| Instructions.ViewsAgree | include/mips-emulator/instruction.hpp:608-628 | A bit that lies in a field of each of any two layouts reads the same through both. |
| Instructions.PackUnpack | include/mips-emulator/instruction.hpp:221-344 | The fields of any layout tile the word: packing them again gives it back. |
| Instructions.UnpackPack | include/mips-emulator/instruction.hpp:221-344 | Every field of a packed word is the given value cut to the field's width. |
| Instructions.SetFieldUnpack | include/mips-emulator/instruction.hpp:389-519 | A bit-field assignment changes that field and no other, in every layout. |
| Instructions.EncodingIsUnique | include/mips-emulator/instruction.hpp:389-519 | A word is determined by its fields, so the order of the assignments does not matter. |
| Instructions.Instruction.RType | include/mips-emulator/instruction.hpp:388-400 | The assignments build the packed word of the arguments. |
| Instructions.Instruction.IType | include/mips-emulator/instruction.hpp:402-418 | The same for the I-type formats. |
| Instructions.Instruction.JType | include/mips-emulator/instruction.hpp:420-426 | The same for the J-type. |
| Instructions.Instruction.FpuRType | include/mips-emulator/instruction.hpp:430-439 | The same for the FPU R-type. |
| Instructions.Instruction.FpuBType | include/mips-emulator/instruction.hpp:441-447 | The same for the FPU B-type. |
| Instructions.Instruction.FpuTType | include/mips-emulator/instruction.hpp:449-457 | The same for the FPU T-type. |
| Instructions.Instruction.Special3 | include/mips-emulator/instruction.hpp:462-493 | The same for the three SPECIAL3 constructors; the two-register one passes rs = 0. |
| Instructions.Instruction.RegimmIType | include/mips-emulator/instruction.hpp:495-502 | The same for REGIMM. |
| Instructions.Instruction.PcRelType1 | include/mips-emulator/instruction.hpp:504-511 | The same for the first PC-relative format. |
| Instructions.Instruction.PcRelType2 | include/mips-emulator/instruction.hpp:513-519 | The same for the second PC-relative format. |
| Instructions.RTypeDecodes | include/mips-emulator/instruction.hpp:388-400 | A constructed R-type word is classified as one and its fields read the arguments back, cut to five or six bits. |
| Instructions.ITypeDecodes | include/mips-emulator/instruction.hpp:534-604 | Every I-type opcode is classified as I-type, POP66 and POP76 with rs not 0 as long-immediate, and the fields read back. |
| Instructions.LongImmDecodes | include/mips-emulator/instruction.hpp:340-344 | POP66 and POP76 words read back through the long-immediate layout, are of that family exactly when rs is not 0, and split the immediate into the I-type fields. |
| Instructions.JTypeDecodes | include/mips-emulator/instruction.hpp:420-426 | A constructed J-type word is classified as one and reads back. |
| Instructions.FpuDecodes | include/mips-emulator/instruction.hpp:587-594 | Every FPU format and branch is classified as its family and reads back. |
| Instructions.FpuTransferDecodes | include/mips-emulator/instruction.hpp:587-594 | Every FPU transfer is classified as its family and reads back. |
| Instructions.Special3Decodes | include/mips-emulator/instruction.hpp:564-575 | BSHFL, EXT and INS words are classified as such and read back. |
| Instructions.RegimmDecodes | include/mips-emulator/instruction.hpp:495-502 | A constructed REGIMM word is classified as one and reads back. |
| Instructions.PcRelType1Decodes | include/mips-emulator/instruction.hpp:577-585 | ADDIUPC and LWPC words are of the first format and read back. |
| Instructions.PcRelType2Decodes | include/mips-emulator/instruction.hpp:577-585 | AUIPC and ALUIPC words are of the second format and read back. |
| Arithmetic.ProductsReassemble | include/mips-emulator/executor.hpp:59-68 | The high and low words reassemble the exact 64-bit product, signed and unsigned, for all operands. |
| Arithmetic.HighSignedCorrection | include/mips-emulator/executor.hpp:59-68 | MUH is MUHU minus the other operand for each negative operand, mod 2^32. |
| Arithmetic.AddWrapsIff | include/mips-emulator/executor.hpp:43-58 | Every ADD and SUB word succeeds, and writes the exact signed result if and only if it is in range. |
| Arithmetic.AddWrapsCounterexample | include/mips-emulator/executor.hpp:43-46 | ADD of INT32_MAX and 1 writes INT32_MIN. |
| Arithmetic.DivisionLaw | include/mips-emulator/executor.hpp:69-75 | rs = q * rt + r with r smaller than rt in size and zero or of the sign of rs, for all operands but INT32_MIN / -1. |
| Arithmetic.UnsignedDivisionLaw | include/mips-emulator/executor.hpp:76-82 | The same for DIVU and MODU. |
| Arithmetic.ArithmeticShiftLaws | include/mips-emulator/executor.hpp:129-157 | SRA rounds the signed value down, and shifting by a then b is shifting by a + b. |
| Arithmetic.RotateRightAt | include/mips-emulator/executor.hpp:158-179 | Bit i of a rotation by s is bit (i + s) mod 32 of the operand. |
| Arithmetic.RotationsCompose | include/mips-emulator/executor.hpp:158-179 | Rotations compose by adding amounts mod 32; s and 32 - s cancel. |
| Arithmetic.RotationKeepsPopCount | include/mips-emulator/executor.hpp:158-179 | Rotation conserves the number of one bits. |
| Arithmetic.LeadingBits | include/mips-emulator/executor.hpp:188-215 | CLZ is the unique k with 2^(31-k) <= x < 2^(32-k), 32 for zero; CLO is the length of the run of ones at the top. |
| Arithmetic.SwapHalfwordBytesAt | include/mips-emulator/executor.hpp:658-666 | Every bit of WSBH comes from the same position in the other byte of its halfword. |
| Arithmetic.ByteOrderLaws | include/mips-emulator/executor.hpp:639-666 | BITSWAP and WSBH are involutions and commute. |
| Arithmetic.AlignAt | include/mips-emulator/executor.hpp:667-690 | Every bit of ALIGN, from the first word or from the top of the second. |
| Arithmetic.InsertExtract | include/mips-emulator/executor.hpp:711-760 | EXT of an INS returns rs mod 2^size, INS of a field's own EXT is the identity, bits outside the field are kept. |
| Arithmetic.InsertsCommute | include/mips-emulator/executor.hpp:734-760 | INSs into disjoint fields commute; an INS that covers an earlier one erases it. |
| Branches.OppositeBranches | include/mips-emulator/executor.hpp:262-513 | With equal fields, opposite opcodes give the same branch on opposite conditions, so exactly one is taken; JIC answers JIALC; POP26 and POP27 with rt = 0 do nothing. |
| Branches.OppositeRegimm | include/mips-emulator/executor.hpp:773-788 | The same for BGEZ and BLTZ. |
| Branches.OverflowFlagExactIff | include/mips-emulator/executor.hpp:393-400 | The flag of BOVC and BNVC is signed overflow if and only if the operands have the same sign. |
| Branches.OverflowFlagCounterexample | include/mips-emulator/executor.hpp:418-424 | 1 and -1 set the flag without overflowing. |
| Branches.PcRelExtensionIff | include/mips-emulator/executor.hpp:803-809 | Over one and the same base, the address is the sign-extended one if and only if the distance is not negative. |
| Branches.AddPcPromiseIff | include/mips-emulator/executor.hpp:812-821 | Every ADDIUPC word, from the machine before the step: it writes the promised address, its own plus the sign-extended distance, if and only if the next address due is its own (2 MB below its own for a negative distance) or it writes to $0; never the former with no branch pending. |
| Branches.LoadPcPromiseIff | include/mips-emulator/executor.hpp:823-839 | Every LWPC word loads from the promised address if and only if the same condition holds. |
| Branches.UpperPcPromiseIff | include/mips-emulator/executor.hpp:877-887 | Every AUIPC word writes the promised sum if and only if the next address due is its own or it writes to $0. |
| Branches.AlignedUpperPcPromiseIff | include/mips-emulator/executor.hpp:861-874 | Every ALUIPC word writes the promised block if and only if the next address due is in its own 64K block or it writes to $0; with no branch pending, everywhere but in the last word of a block. |
| Branches.PcRelBaseCounterexample | include/mips-emulator/executor.hpp:812-887 | At 0x1000, ADDIUPC $8, 0 and AUIPC $8, 0 write 0x1004, and LWPC $8, 0 loads the word after its own. |
| Branches.AlignedUpperPcCounterexample | include/mips-emulator/executor.hpp:861-874 | At 0xFFFC, ALUIPC $8, 0 writes 0x10000. |
| Branches.PcRelSignedCounterexample | include/mips-emulator/executor.hpp:812-818 | A distance of minus one word leads 2 MB forward. |
| Branches.DelayedBranchReach | include/mips-emulator/executor.hpp:257-264 | BEQ words reach exactly the addresses a multiple of four away from the advanced pc, from 2^17 bytes back to 2^17 - 4 ahead. |
| Branches.CompactZeroReach | include/mips-emulator/executor.hpp:483-493 | BEQZC words on a register that holds zero: the same with 2^22. |
| Branches.CompactReach | include/mips-emulator/executor.hpp:597-618 | BC and BALC words: the same with 2^27. |
| Branches.RegionReach | include/mips-emulator/executor.hpp:592-618 | J and JAL words reach exactly the word-aligned addresses of the 256 MB region of the advanced pc. |
| Branches.IndexedLinkIff | include/mips-emulator/executor.hpp:496-502 | Every JIALC word goes to base plus offset if and only if the base is not $31 or $31 already held the link. |
| Branches.IndexedLinkCounterexample | include/mips-emulator/executor.hpp:496-502 | JIALC $31, 0 goes to its own link instead of the address that was in $31. |
| Branches.JalrLinkIff | include/mips-emulator/executor.hpp:111-116 | Every JALR word links $31. The registers are those of linking its rd register if and only if that is $31, or both already held the link, an rd of 0 asking for nothing. |
| Branches.JalrLinkCounterexample | include/mips-emulator/executor.hpp:111-116 | JALR $8, $9 leaves $8 alone. |
| Branches.ConditionalLinkIff | include/mips-emulator/executor.hpp:322-413 | Every linking conditional compact branch writes $31 if and only if it is taken, and otherwise does nothing; $31 holds the link afterwards if and only if it is taken or $31 held it before. |
| Branches.ConditionalLinkCounterexample | include/mips-emulator/executor.hpp:379-385 | BEQZALC of a non-zero register leaves $31 alone. |
| Assembly.Construct | include/mips-emulator/instruction.hpp:388-519 | Calling the constructor that a mnemonic selects builds exactly its word. |
| Assembly.BuiltFields | include/mips-emulator/instruction.hpp:388-519 | Each field of a built word, through the layout that reads it, is the argument of the call. |
| Assembly.AssembledDisassembles | include/mips-emulator/executor.hpp:16-890 | Every instruction that assembles gets a word that the executor's case distinctions read as that same instruction. |
| Assembly.DisassembledAssembles | include/mips-emulator/executor.hpp:16-890 | Whatever instruction one of the 2^32 words is, some constructor call builds a word for it. |
| Assembly.EncodableIff | include/mips-emulator/executor.hpp:16-890 | An instruction has a word if and only if it assembles: exactly which conditions, registers and offsets each branch, load or field instruction can have. |
| Assembly.AssembledStep | include/mips-emulator/executor.hpp:892-948 | An instruction assembled, stored at the program counter and stepped has its meaning on registers and memory, and succeeds exactly when that does. |

## Left out

- BitTricks.SraMeaning: with amount 0 the source shifts by 32, which C++ leaves undefined; there the result is
  stated through the host parameter, and the floor-division law covers amounts 1 to 31.
- BitTricks.RotrMeaning: the same for rotations by 0.
- Arithmetic.DivisionLaw: excludes INT32_MIN / -1, which C++ leaves undefined.
- MMIO handlers: `mmio->read` and `mmio->store` are foreign code with a state of their own.
- `read_no_mmio` and `store_no_mmio`: without an MMIO handler they are `read` and `store`.
- `ptr_from_address`, `Span`, `shared_ptr` and the casts: pointers into the buffer that escape it are not modelled.
- FPU execution: the executor only refuses these words; the FPU formats are modelled for encoding and decoding.
- `StaticMemory`, `RuntimeStaticMemory`, `Emulator`: they supply the buffer and forward to `step`.
- The `Register` and `Result` unions: a register is one word with two readings, and a result is a datatype. So
  `set_signed` is `SetUnsigned`.
- The getters of `bad_instr` and `cause_register`, and the exception codes other than the trap's.
- The text order of the cases: the large `switch` statements are cut into one method for each kind of case, which
  the handler calls.
- The value of an undefined C++ operation is a fixed but arbitrary function of its operand, not a new choice
  each time, and never a crash.

/** The register file: 32 words updated in place, the program counter and the pending delayed branch. */
module RegisterFiles {
  import opened Words
  import opened Isa

  const REGISTER_COUNT: nat := 32
  const INDEX_MASK: Byte := 31

  function Index(index: Byte): (i: nat)
    ensures i == index % 32
  {
    Pow2Table();
    AndLowMask(index, 5, INDEX_MASK);
    SplitAt(index, 5, 32);
    And(index, INDEX_MASK)
  }

  class RegisterFile {
    var branchFlag: bool
    var branchTarget: Word
    var badInstr: Word
    var cause: nat
    var pc: Word
    const regs: array<Word>

    ghost predicate Valid()
      reads this, regs
    {
      regs.Length == REGISTER_COUNT && regs[0] == 0
    }

    ghost function State(): Regs
      requires Valid()
      reads this, regs
    {
      Regs(regs[..], pc, branchFlag, branchTarget, badInstr, cause)
    }

    /** The cause register has no initial value of its own. */
    constructor (cause: nat)
      ensures Valid() && fresh(regs)
      ensures State() == Regs(seq(32, i => 0), 0, false, 0, 0, cause)
    {
      regs := new Word[32](i => 0);
      pc, branchFlag, branchTarget, badInstr, this.cause := 0, false, 0, 0, cause;
    }

    method GetPc() returns (r: Word)
      ensures r == pc
    {
      r := pc;
    }

    method SetPc(newPc: Word)
      requires Valid()
      modifies this`pc
      ensures State() == old(State()).(pc := newPc)
    {
      pc := newPc;
    }

    method IncPc()
      requires Valid()
      modifies this`pc
      ensures State() == old(State()).(pc := Wrap(old(pc) + 4))
    {
      pc := Wrap(pc + 4);
    }

    /** Any 8-bit index is accepted: only its low five bits count. */
    method Get(index: Byte) returns (r: Word)
      requires Valid()
      ensures r == State().gpr[index % 32]
    {
      r := regs[Index(index)];
    }

    method SetUnsigned(index: Byte, value: Word)
      requires Valid()
      modifies regs
      ensures Valid()
      ensures State() == old(State()).(gpr := WriteGpr(old(State()).gpr, To(index % 32, value)))
    {
      regs[Index(index)] := value;
      regs[0] := 0;
    }

    method ZeroAll()
      requires Valid()
      modifies regs
      ensures Valid()
      ensures State() == old(State()).(gpr := seq(32, i => 0))
    {
      for i := 0 to REGISTER_COUNT
        invariant regs[0] == 0
        invariant forall j :: 0 <= j < i ==> regs[j] == 0
      {
        regs[i] := 0;
      }
    }

    method DelayedBranch(target: Word)
      requires Valid()
      modifies this`branchFlag, this`branchTarget
      ensures State() == old(State()).(flag := true, target := target)
    {
      branchFlag := true;
      branchTarget := target;
    }

    /** Moves to the pending target if there is one and to the next word otherwise; nothing stays pending. */
    method UpdatePc()
      requires Valid()
      modifies this`pc, this`branchFlag
      ensures State() == Isa.UpdatePc(old(State()))
    {
      IncPc();
      pc := Wrap(pc + (if branchFlag then 1 else 0) * Wrap(branchTarget - pc));
      branchFlag := false;
    }

    method SignalException(cause: nat, instr: Word)
      requires Valid()
      modifies this`badInstr, this`cause
      ensures State() == old(State()).(badInstr := instr, cause := cause)
    {
      badInstr := instr;
      this.cause := cause;
    }
  }
}

/** The byte buffer behind an address offset, read and stored as little-endian words. */
module Memories {
  import opened Words
  import opened Isa

  class Memory {
    const offset: Word
    const alignedAccess: bool
    const data: array<Byte>

    constructor (data: array<Byte>, offset: Word, alignedAccess: bool)
      ensures this.data == data && this.offset == offset && this.alignedAccess == alignedAccess
    {
      this.data, this.offset, this.alignedAccess := data, offset, alignedAccess;
    }

    ghost function AsBus(): Bus {
      Bus(offset, alignedAccess)
    }

    method IsAligned(address: Word, width: nat) returns (r: bool)
      requires IsWidth(width)
      ensures r == (address % width == 0)
    {
      Pow2Table();
      var k := if width == 1 then 0 else if width == 2 then 1 else 2;
      AndLowMask(address, k, width - 1);
      SplitAt(address, k, width);
      r := And(address, width - 1) == 0;
    }

    /** The difference is a uint32_t; adding the width makes it 64 bits wide. */
    method IsInBounds(address: Word, width: nat) returns (r: bool)
      ensures r == (offset <= address && address - offset + width < data.Length % TWO32)
    {
      r := Wrap(address - offset) + width < data.Length % TWO32 && address >= offset;
    }

    method Check(address: Word, width: nat) returns (error: Result<()>)
      requires IsWidth(width)
      ensures error == match Locate(AsBus(), data.Length, address, width)
                       case Ok(_) => Ok(())
                       case Err(e) => Err(e)
    {
      if width > 1 && alignedAccess {
        var aligned := IsAligned(address, width);
        if !aligned { return Err(UnalignedAccess); }
      }
      var inBounds := IsInBounds(address, width);
      if !inBounds { return Err(OutOfBoundsAccess); }
      return Ok(());
    }

    method Read(address: Word, width: nat) returns (r: Result<Word>)
      requires IsWidth(width)
      ensures r == Isa.Read(AsBus(), data[..], address, width)
    {
      var checked := Check(address, width);
      if checked.Err? { return Err(checked.error); }
      var i := address - offset;
      ghost var at := Locate(AsBus(), data.Length, address, width);
      LittleEndianBound(data[i..i + width]);
      assert data[..][i..i + width] == data[i..i + width];
      r := Ok(LittleEndian(data[i..i + width]));
    }

    /** On success exactly the bytes of the access change; on failure none do. */
    method Store(address: Word, width: nat, value: Word) returns (r: Result<()>)
      requires IsWidth(width)
      modifies data
      ensures match Locate(AsBus(), data.Length, address, width)
              case Ok(i) => r == Ok(()) && data[..] == Patch(old(data[..]), i, Bytes(value, width))
              case Err(e) => r == Err(e) && data[..] == old(data[..])
    {
      var checked := Check(address, width);
      ghost var at := Locate(AsBus(), data.Length, address, width);
      if checked.Err? { return Err(checked.error); }
      var i := address - offset;
      var b := Bytes(value, width);
      forall k | 0 <= k < width {
        data[i + k] := b[k];
      }
      r := Ok(());
    }
  }
}

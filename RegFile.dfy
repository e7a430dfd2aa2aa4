/** The register file: a hard-wired zero register x0 and NumRegs - 1
    general-purpose registers kept in a fixed-size array. */
module RegFile {
  import opened Arch
  import opened Faults

  class RegisterFile {
    /** The stored registers x1..x31, register i at index i - 1 */
    const registers: array<u64>

    /** The architectural view: x0 followed by the stored registers */
    ghost function Contents(): (c: seq<u64>)
      reads registers
      ensures |c| == 1 + registers.Length && c[0] == 0
    {
      [0] + registers[..]
    }

    ghost predicate Valid()
    {
      registers.Length == NumRegs - 1
    }

    /** Every register starts at zero */
    constructor ()
      ensures Valid() && fresh(registers)
      ensures Contents() == seq(NumRegs, i => 0)
    {
      registers := new u64[NumRegs - 1](i => 0);
    }

    /** Register regnum, with x0 always reading 0; a number of NumRegs or
        more is an out-of-range fault */
    method ReadRegister(regnum: RegNumber) returns (r: Result<u64>)
      requires Valid()
      ensures regnum >= NumRegs <==> r == Err(RegisterOutOfRange(regnum))
      ensures regnum < NumRegs ==> r == Ok(Contents()[regnum])
      ensures regnum == 0 ==> r == Ok(0)
    {
      var ok := CheckRegNumber(regnum);
      if !ok {
        return Err(RegisterOutOfRange(regnum));
      }
      if regnum == 0 {
        return Ok(0);
      }
      return Ok(registers[regnum - 1]);
    }

    /** Stores value in register regnum; a write to x0 is dropped, and an
        out-of-range number faults without changing anything */
    method WriteRegister(regnum: RegNumber, value: u64) returns (o: Outcome)
      requires Valid()
      modifies registers
      ensures regnum >= NumRegs <==> o == Fail(RegisterOutOfRange(regnum))
      ensures regnum < NumRegs ==> o == Pass
      ensures Contents() == if 0 < regnum < NumRegs then old(Contents())[regnum := value] else old(Contents())
    {
      var ok := CheckRegNumber(regnum);
      if !ok {
        return Fail(RegisterOutOfRange(regnum));
      }
      if regnum == 0 {
        return Pass;
      }
      registers[regnum - 1] := value;
      assert Contents() == old(Contents())[regnum := value];
      return Pass;
    }

    /** Whether a register number is in range */
    method CheckRegNumber(regnum: RegNumber) returns (ok: bool)
      ensures ok <==> regnum < NumRegs
    {
      ok := regnum < NumRegs;
    }
  }
}

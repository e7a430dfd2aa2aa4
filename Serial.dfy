/** The write-only serial interface: one byte-wide output register at its
    base address. The characters written are kept as an output stream. */
module Serial {
  import opened Arch
  import opened Faults

  /** The device and everything written to it so far */
  datatype Port = Port(base: u64, output: seq<byte>)

  /** A new port has written nothing */
  function NewPort(base: u64): (p: Port)
    ensures p.base == base && p.output == []
  {
    Port(base, [])
  }

  /** `base <= addr && addr < base + 1`, the sum taken in 64 bits */
  predicate Contains(p: Port, addr: u64)
  {
    p.base <= addr && addr < (p.base + 1) % W64
  }

  /** Reads of every width are refused */
  function Read(p: Port, addr: u64, width: Width): (res: Result<nat>)
    ensures res == Err(IllegalAccessMessage("Not supported on serial interface"))
  {
    Err(IllegalAccessMessage("Not supported on serial interface"))
  }

  /** A byte written at the base address is emitted; a byte anywhere else,
      and a write of any other width, is refused */
  function Write(p: Port, addr: u64, width: Width, value: nat): (res: Result<Port>)
    requires value < Pow2(8 * width)
    ensures res.Ok? <==> width == 1 && addr == p.base
    ensures res.Ok? ==> res.value.base == p.base && res.value.output == p.output + [value]
    ensures width == 1 && addr != p.base ==> res == Err(IllegalAccessMessage("Invalid address"))
    ensures width != 1 ==> res == Err(IllegalAccessMessage("Not supported on serial interface"))
  {
    if width != 1 then Err(IllegalAccessMessage("Not supported on serial interface"))
    else if addr != p.base then Err(IllegalAccessMessage("Invalid address"))
    else
      assert Pow2(8) == 256 by {
        Pow2Table();
      }
      Ok(p.(output := p.output + [value]))
  }

  /** Below the top of the address space the port claims exactly its base */
  lemma ContainsExactlyBase(p: Port, addr: u64)
    requires p.base + 1 < W64
    ensures Contains(p, addr) <==> addr == p.base
  {
  }

  /** Writing the bytes of s one at a time at the base emits s */
  lemma {:induction false} WriteString(p: Port, s: seq<byte>)
    ensures WriteAll(p, s) == Ok(p.(output := p.output + s))
    decreases |s|
  {
    if s != [] {
      assert Pow2(8) == 256 by {
        Pow2Table();
      }
      var p' := p.(output := p.output + [s[0]]);
      assert Write(p, p.base, 1, s[0]) == Ok(p');
      assert WriteAll(p, s) == WriteAll(p', s[1..]);
      WriteString(p', s[1..]);
      assert p'.output + s[1..] == p.output + s;
    } else {
      assert p.output + s == p.output;
    }
  }

  /** Byte writes of s at the base, one after the other */
  function WriteAll(p: Port, s: seq<byte>): Result<Port>
    decreases |s|
  {
    if s == [] then Ok(p)
    else
      assert Pow2(8) == 256 by {
        Pow2Table();
      }
      match Write(p, p.base, 1, s[0])
      case Err(f) => Err(f)
      case Ok(p') => WriteAll(p', s[1..])
  }
}

/** A memory region: a byte buffer mapped at a base address. It can always
    be read; it can be written once writing has been allowed. Accesses are
    little-endian, the byte order of every image the loader accepts. */
module Memory {
  import opened Arch
  import opened Faults

  /** The region's size is the length of its buffer */
  datatype Region = Region(name: string, mayWrite: bool, base: u64, data: seq<byte>)

  /** A region over a buffer starts out read-only */
  function NewRegion(name: string, data: seq<byte>, base: u64): Region
  {
    Region(name, false, base, data)
  }

  /** Allows or forbids writes */
  function SetMayWrite(r: Region, setting: bool): Region
  {
    r.(mayWrite := setting)
  }

  /** `base <= addr && addr < base + size`, the sum taken in 64 bits */
  predicate Contains(r: Region, addr: u64)
  {
    r.base <= addr && addr < (r.base + |r.data|) % W64
  }

  /** The access check as written: both sums wrap around in 64 bits */
  predicate CanAccessAsWritten(r: Region, addr: u64, width: Width, write: bool)
  {
    if addr < r.base || (addr + width) % W64 > (r.base + |r.data|) % W64 then false
    else if write && !r.mayWrite then false
    else true
  }

  /** The access check as intended: the accessed bytes lie inside the buffer,
      and a write needs write permission */
  predicate CanAccess(r: Region, addr: u64, width: Width, write: bool)
  {
    if addr < r.base || addr + width > r.base + |r.data| then false
    else if write && !r.mayWrite then false
    else true
  }

  /** A sized read: the little-endian value of the `width` bytes at addr */
  function ReadData(r: Region, addr: u64, width: Width): (res: Result<nat>)
    ensures res.Ok? <==> CanAccess(r, addr, width, false)
    ensures res.Err? ==> res.fault == IllegalAccessSized(addr, width)
    ensures res.Ok? ==>
      res.value < Pow2(8 * width) && LeBytes(res.value, width) == r.data[addr - r.base .. addr - r.base + width]
  {
    if !CanAccess(r, addr, width, false) then Err(IllegalAccessSized(addr, width))
    else
      var bytes := r.data[addr - r.base .. addr - r.base + width];
      LeBytesOfValue(bytes);
      Ok(LeValue(bytes))
  }

  /** A sized write: the `width` bytes at addr become the little-endian
      bytes of value, and nothing else changes */
  function WriteData(r: Region, addr: u64, width: Width, value: nat): (res: Result<Region>)
    requires value < Pow2(8 * width)
    ensures res.Ok? <==> CanAccess(r, addr, width, true)
    ensures res.Err? ==> res.fault == IllegalAccessSized(addr, width)
    ensures res.Ok? ==>
      var r', off := res.value, addr - r.base;
      && r'.name == r.name && r'.mayWrite == r.mayWrite && r'.base == r.base
      && |r'.data| == |r.data|
      && LeValue(r'.data[off .. off + width]) == value
      && forall i :: 0 <= i < |r.data| && !(off <= i < off + width) ==> r'.data[i] == r.data[i]
  {
    if !CanAccess(r, addr, width, true) then Err(IllegalAccessSized(addr, width))
    else
      var off := addr - r.base;
      var data := Splice(r.data, off, LeBytes(value, width));
      LeRoundTrip(value, width);
      Ok(r.(data := data))
  }

  /** data with the bytes from off on replaced by bytes */
  function Splice(data: seq<byte>, off: nat, bytes: seq<byte>): (d: seq<byte>)
    requires off + |bytes| <= |data|
    ensures |d| == |data| && d[off .. off + |bytes|] == bytes
    ensures forall i :: 0 <= i < |data| && !(off <= i < off + |bytes|) ==> d[i] == data[i]
  {
    data[..off] + bytes + data[off + |bytes|..]
  }

  /** Encoding a value that fits and decoding it again gives it back */
  lemma LeRoundTrip(value: nat, n: nat)
    requires value < Pow2(8 * n)
    ensures LeValue(LeBytes(value, n)) == value
  {
    LeValueOfBytes(value, n);
    DivModUnique(value, Pow2(8 * n), 0, value);
  }

  // ---------------------------------------------------------------------
  // Properties
  // ---------------------------------------------------------------------

  /** For a region that does not reach the top of the address space,
      Contains is the half-open range [base, base + size); a region that
      does reach it contains no address at all */
  lemma ContainsRange(r: Region, addr: u64)
    requires |r.data| < W64
    ensures Contains(r, addr) <==> r.base <= addr < r.base + |r.data| < W64
  {
  }

  /** Contains alone does not make a wider access succeed */
  lemma ContainsIsNotAccess()
    ensures var r := Region("data", true, 0x1000, [0, 0, 0, 0]);
      Contains(r, 0x1002) && !CanAccess(r, 0x1002, 4, false)
  {
  }

  /** A region starts read-only: every write to it faults */
  lemma NewRegionRefusesWrites(name: string, data: seq<byte>, base: u64, addr: u64, width: Width, value: nat)
    requires value < Pow2(8 * width)
    ensures WriteData(NewRegion(name, data, base), addr, width, value) == Err(IllegalAccessSized(addr, width))
  {
  }

  /** Once writes are allowed, every access that may read may also write */
  lemma SetMayWriteAllowsWrites(r: Region, addr: u64, width: Width, value: nat)
    requires value < Pow2(8 * width) && CanAccess(r, addr, width, false)
    ensures WriteData(SetMayWrite(r, true), addr, width, value).Ok?
  {
  }

  /** Reading back what was written gives the value written */
  lemma ReadAfterWrite(r: Region, addr: u64, width: Width, value: nat)
    requires value < Pow2(8 * width) && WriteData(r, addr, width, value).Ok?
    ensures ReadData(WriteData(r, addr, width, value).value, addr, width) == Ok(value)
  {
    var r' := WriteData(r, addr, width, value).value;
    var off := addr - r.base;
    LeBytesOfValue(r'.data[off .. off + width]);
  }

  /** A write leaves the bytes of a disjoint read untouched */
  lemma ReadAfterWriteElsewhere(r: Region, addr: u64, width: Width, value: nat, addr2: u64, width2: Width)
    requires value < Pow2(8 * width) && WriteData(r, addr, width, value).Ok?
    requires addr2 + width2 <= addr || addr + width <= addr2
    ensures ReadData(WriteData(r, addr, width, value).value, addr2, width2) == ReadData(r, addr2, width2)
  {
    var r' := WriteData(r, addr, width, value).value;
    assert CanAccess(r', addr2, width2, false) == CanAccess(r, addr2, width2, false);
    if CanAccess(r, addr2, width2, false) {
      var off2 := addr2 - r.base;
      assert r'.data[off2 .. off2 + width2] == r.data[off2 .. off2 + width2] by {
        forall i | off2 <= i < off2 + width2
          ensures r'.data[i] == r.data[i]
        {
        }
      }
    }
  }

  /** Where the sums do not wrap, the check as written is the intended one */
  lemma CanAccessAgrees(r: Region, addr: u64, width: Width, write: bool)
    requires r.base + |r.data| < W64 && addr + width < W64
    ensures CanAccessAsWritten(r, addr, width, write) == CanAccess(r, addr, width, write)
  {
  }

  /** A region ending just below the top of the address space: the check as
      written lets an 8-byte read run past the end of the buffer, because
      addr + 8 wraps around to 6 */
  lemma CanAccessAsWrittenOverflows()
    ensures var r := Region("data", false, 0xFFFF_FFFF_FFFF_FFF0, seq(15, i => 0));
      var addr: u64 := 0xFFFF_FFFF_FFFF_FFFE;
      && CanAccessAsWritten(r, addr, 8, false)
      && addr - r.base + 8 > |r.data|
      && !CanAccess(r, addr, 8, false)
  {
  }
}

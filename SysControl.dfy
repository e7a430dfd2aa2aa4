/** The system controller: a 16-byte device whose only function is the halt
    request, a byte or word write to base + 8. */
module SysControl {
  import opened Arch
  import opened Faults

  /** The device and its halt flag */
  datatype Controller = Controller(base: u64, shouldHalt: bool)

  /** A new controller has not been asked to halt */
  function NewController(base: u64): (c: Controller)
    ensures c.base == base && !c.shouldHalt
  {
    Controller(base, false)
  }

  /** `base <= addr && addr < base + 0x10`, the sum taken in 64 bits */
  predicate Contains(c: Controller, addr: u64)
  {
    c.base <= addr && addr < (c.base + 0x10) % W64
  }

  /** The address of the halt register, base + 8 in 64 bits */
  function HaltAddress(c: Controller): (a: u64)
    ensures c.base + 8 < W64 ==> a == c.base + 8
  {
    (c.base + 8) % W64
  }

  /** Reads of every width are refused */
  function Read(c: Controller, addr: u64, width: Width): (res: Result<nat>)
    ensures res == Err(IllegalAccessMessage("Not supported on syscontrol interface"))
  {
    Err(IllegalAccessMessage("Not supported on syscontrol interface"))
  }

  /** A byte or word write to the halt register sets the halt flag; one
      anywhere else is refused, and half-word and double-word writes are
      always refused */
  function Write(c: Controller, addr: u64, width: Width, value: nat): (res: Result<Controller>)
    ensures res.Ok? <==> (width == 1 || width == 4) && addr == HaltAddress(c)
    ensures res.Ok? ==> res.value == c.(shouldHalt := true)
    ensures ((width == 1 || width == 4) && addr != HaltAddress(c))
            ==> res == Err(IllegalAccessMessage("Invalid system controller address"))
    ensures (width == 2 || width == 8) ==> res == Err(IllegalAccessMessage("Not supported on syscontrol interface"))
  {
    if width == 2 || width == 8 then Err(IllegalAccessMessage("Not supported on syscontrol interface"))
    else if addr != HaltAddress(c) then Err(IllegalAccessMessage("Invalid system controller address"))
    else Ok(c.(shouldHalt := true))
  }

  /** Once set, the halt flag stays set whatever is written */
  lemma HaltIsSticky(c: Controller, addr: u64, width: Width, value: nat)
    requires c.shouldHalt
    ensures Write(c, addr, width, value).Ok? ==> Write(c, addr, width, value).value.shouldHalt
    ensures Write(c, addr, width, value).Err? ==> Write(c, addr, width, value).fault.IllegalAccessMessage?
  {
  }

  /** Below the top of the address space the controller claims [base, base + 16) */
  lemma ContainsRange(c: Controller, addr: u64)
    requires c.base + 0x10 < W64
    ensures Contains(c, addr) <==> c.base <= addr < c.base + 0x10
    ensures Contains(c, HaltAddress(c))
  {
  }
}

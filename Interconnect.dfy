/** The memory bus: an append-only list of clients, each access routed to
    the first client, in list order, whose range contains the address. */
module Interconnect {
  import opened Arch
  import opened Faults
  import Memory
  import Serial
  import SysControl

  /** The closed set of bus clients */
  datatype Client =
    | Ram(region: Memory.Region)
    | SerialPort(port: Serial.Port)
    | Control(controller: SysControl.Controller)

  predicate ClientContains(c: Client, addr: u64)
  {
    match c
    case Ram(r) => Memory.Contains(r, addr)
    case SerialPort(p) => Serial.Contains(p, addr)
    case Control(k) => SysControl.Contains(k, addr)
  }

  /** Two clients of the same kind over the same addresses */
  predicate SameRange(c: Client, d: Client)
  {
    match (c, d)
    case (Ram(r), Ram(s)) => r.base == s.base && |r.data| == |s.data|
    case (SerialPort(p), SerialPort(q)) => p.base == q.base
    case (Control(k), Control(l)) => k.base == l.base
    case _ => false
  }

  lemma SameRangeContains(c: Client, d: Client, addr: u64)
    requires SameRange(c, d)
    ensures ClientContains(c, addr) == ClientContains(d, addr)
  {
  }

  /** A sized read, handed to the client's own read */
  function ClientRead(c: Client, addr: u64, width: Width): Result<nat>
  {
    match c
    case Ram(r) => Memory.ReadData(r, addr, width)
    case SerialPort(p) => Serial.Read(p, addr, width)
    case Control(k) => SysControl.Read(k, addr, width)
  }

  /** A sized write, handed to the client's own write; the client keeps its
      kind and its range */
  function ClientWrite(c: Client, addr: u64, width: Width, value: nat): (res: Result<Client>)
    requires value < Pow2(8 * width)
    ensures res.Ok? ==> SameRange(c, res.value)
  {
    match c
    case Ram(r) =>
      (match Memory.WriteData(r, addr, width, value)
       case Ok(r') => Ok(Ram(r'))
       case Err(f) => Err(f))
    case SerialPort(p) =>
      (match Serial.Write(p, addr, width, value)
       case Ok(p') => Ok(SerialPort(p'))
       case Err(f) => Err(f))
    case Control(k) =>
      (match SysControl.Write(k, addr, width, value)
       case Ok(k') => Ok(Control(k'))
       case Err(f) => Err(f))
  }

  /** The index of the first client whose range contains addr */
  function FirstOwner(cs: seq<Client>, addr: u64): (o: Option<nat>)
    ensures o.Some? ==>
      && o.value < |cs| && ClientContains(cs[o.value], addr)
      && forall j :: 0 <= j < o.value ==> !ClientContains(cs[j], addr)
    ensures o.None? ==> forall j :: 0 <= j < |cs| ==> !ClientContains(cs[j], addr)
    decreases |cs|
  {
    if cs == [] then None
    else if ClientContains(cs[0], addr) then Some(0)
    else match FirstOwner(cs[1..], addr)
      case None => None
      case Some(i) => Some(i + 1)
  }

  /** A read of the whole bus: the owner's read, or IllegalAccess(addr) */
  function BusRead(cs: seq<Client>, addr: u64, width: Width): Result<nat>
  {
    match FirstOwner(cs, addr)
    case None => Err(IllegalAccess(addr))
    case Some(i) => ClientRead(cs[i], addr, width)
  }

  /** A write to the whole bus: the owner's write, or IllegalAccess(addr);
      only the owner changes */
  function BusWrite(cs: seq<Client>, addr: u64, width: Width, value: nat): (res: Result<seq<Client>>)
    requires value < Pow2(8 * width)
    ensures FirstOwner(cs, addr).None? ==> res == Err(IllegalAccess(addr))
    ensures res.Ok? ==>
      && FirstOwner(cs, addr).Some? && |res.value| == |cs|
      && SameRange(cs[FirstOwner(cs, addr).value], res.value[FirstOwner(cs, addr).value])
      && forall j :: 0 <= j < |cs| && j != FirstOwner(cs, addr).value ==> res.value[j] == cs[j]
  {
    match FirstOwner(cs, addr)
    case None => Err(IllegalAccess(addr))
    case Some(i) =>
      match ClientWrite(cs[i], addr, width, value)
      case Err(f) => Err(f)
      case Ok(c) => Ok(cs[i := c])
  }

  class MemoryBus {
    /** The clients in priority order */
    var clients: seq<Client>

    /** The bus over the loader's clients, in the order given */
    constructor (initial: seq<Client>)
      ensures clients == initial
    {
      clients := initial;
    }

    /** Appends a client behind all existing ones */
    method AddClient(c: Client)
      modifies this
      ensures clients == old(clients) + [c]
    {
      clients := clients + [c];
    }

    /** The linear scan for the first client that contains addr */
    method FindClient(addr: u64) returns (o: Option<nat>)
      ensures o == FirstOwner(clients, addr)
    {
      var i := 0;
      while i < |clients|
        invariant i <= |clients|
        invariant forall j :: 0 <= j < i ==> !ClientContains(clients[j], addr)
      {
        if ClientContains(clients[i], addr) {
          return Some(i);
        }
        i := i + 1;
      }
      return None;
    }

    /** The owner of addr, or IllegalAccess(addr) when there is none */
    method GetClient(addr: u64) returns (r: Result<nat>)
      ensures FirstOwner(clients, addr).None? ==> r == Err(IllegalAccess(addr))
      ensures FirstOwner(clients, addr).Some? ==> r == Ok(FirstOwner(clients, addr).value)
    {
      var o := FindClient(addr);
      if o.None? {
        return Err(IllegalAccess(addr));
      }
      return Ok(o.value);
    }

    /** A sized read, delegated to the owner with the same address */
    method Read(addr: u64, width: Width) returns (r: Result<nat>)
      ensures r == BusRead(clients, addr, width)
    {
      var owner := GetClient(addr);
      if owner.Err? {
        return Err(owner.fault);
      }
      r := ClientRead(clients[owner.value], addr, width);
    }

    /** A sized write, delegated to the owner with the same address and
        value; a fault leaves every client as it was */
    method Write(addr: u64, width: Width, value: nat) returns (o: Outcome)
      requires value < Pow2(8 * width)
      modifies this
      ensures match BusWrite(old(clients), addr, width, value)
        case Ok(cs) => o == Pass && clients == cs
        case Err(f) => o == Fail(f) && clients == old(clients)
    {
      var owner := GetClient(addr);
      if owner.Err? {
        return Fail(owner.fault);
      }
      var i := owner.value;
      var c := ClientWrite(clients[i], addr, width, value);
      if c.Err? {
        return Fail(c.fault);
      }
      clients := clients[i := c.value];
      return Pass;
    }

    /** The bus answers for every address */
    function Contains(addr: u64): (b: bool)
      ensures b
    {
      true
    }
  }

  // ---------------------------------------------------------------------
  // Properties
  // ---------------------------------------------------------------------

  /** Appending a client never takes an address away from an earlier one;
      the new client owns exactly the addresses nobody claimed before */
  lemma AddClientKeepsPriority(cs: seq<Client>, c: Client, addr: u64)
    ensures FirstOwner(cs, addr).Some? ==> FirstOwner(cs + [c], addr) == FirstOwner(cs, addr)
    ensures FirstOwner(cs, addr).None? ==>
      FirstOwner(cs + [c], addr) == if ClientContains(c, addr) then Some(|cs|) else None
  {
    forall j | 0 <= j < |cs|
      ensures (cs + [c])[j] == cs[j]
    {
    }
    assert (cs + [c])[|cs|] == c;
  }

  /** A write changes no client's range, so routing stays as it was */
  lemma {:induction false} SameRangesSameOwner(cs: seq<Client>, ds: seq<Client>, addr: u64)
    requires |cs| == |ds| && forall j :: 0 <= j < |cs| ==> SameRange(cs[j], ds[j])
    ensures FirstOwner(cs, addr) == FirstOwner(ds, addr)
    decreases |cs|
  {
    if cs != [] {
      SameRangeContains(cs[0], ds[0], addr);
      SameRangesSameOwner(cs[1..], ds[1..], addr);
    }
  }

  /** After a successful write, every address has the owner it had */
  lemma BusWriteKeepsRouting(cs: seq<Client>, addr: u64, width: Width, value: nat, a: u64)
    requires value < Pow2(8 * width) && BusWrite(cs, addr, width, value).Ok?
    ensures FirstOwner(BusWrite(cs, addr, width, value).value, a) == FirstOwner(cs, a)
  {
    var ds := BusWrite(cs, addr, width, value).value;
    forall j | 0 <= j < |cs|
      ensures SameRange(cs[j], ds[j])
    {
      if j != FirstOwner(cs, addr).value {
        assert ds[j] == cs[j];
        match cs[j]
        case Ram(_) =>
        case SerialPort(_) =>
        case Control(_) =>
      }
    }
    SameRangesSameOwner(ds, cs, a);
  }

  /** A value written through the bus to a memory region reads back */
  lemma BusReadAfterWrite(cs: seq<Client>, addr: u64, width: Width, value: nat)
    requires value < Pow2(8 * width) && BusWrite(cs, addr, width, value).Ok?
    requires cs[FirstOwner(cs, addr).value].Ram?
    ensures BusRead(BusWrite(cs, addr, width, value).value, addr, width) == Ok(value)
  {
    var i := FirstOwner(cs, addr).value;
    BusWriteKeepsRouting(cs, addr, width, value, addr);
    Memory.ReadAfterWrite(cs[i].region, addr, width, value);
  }
}

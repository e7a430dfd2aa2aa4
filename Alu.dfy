/** The execution unit. `execute` dispatches on the opcode and function
    fields, computing the result register or a new program counter;
    `memorycontroller` performs loads and stores over the memory bus.
    Arithmetic is on uint64_t, so every sum wraps around modulo 2^64. */
module Alu {
  import opened Arch
  import opened Faults
  import opened Decoder
  import opened RegFile
  import Memory
  import opened Interconnect

  // ---------------------------------------------------------------------
  // std::bitset<64> shifts and conjunction
  // ---------------------------------------------------------------------

  /** operator<<: bits move up by n, zeros come in at the bottom */
  function ShiftLeftBits(s: seq<bool>, n: nat): (t: seq<bool>)
    ensures |t| == |s|
  {
    if n >= |s| then Zeros(|s|) else Zeros(n) + s[..|s| - n]
  }

  /** operator>>: bits move down by n, zeros come in at the top */
  function ShiftRightBits(s: seq<bool>, n: nat): (t: seq<bool>)
    ensures |t| == |s|
  {
    if n >= |s| then Zeros(|s|) else s[n..] + Zeros(n)
  }

  /** operator&= */
  function AndBits(a: seq<bool>, b: seq<bool>): (t: seq<bool>)
    requires |a| == |b|
    ensures |t| == |a|
  {
    seq(|a|, i requires 0 <= i < |a| => a[i] && b[i])
  }

  /** a (x mod m) = (a x) mod (a m) */
  lemma MulMod(a: nat, x: nat, m: nat)
    requires a > 0 && m > 0
    ensures a * (x % m) == (a * x) % (a * m)
  {
    var q, r := x / m, x % m;
    assert a * x == (a * m) * q + a * r;
    assert a * r <= a * (m - 1) by {
      MulMonotone(a, r, m - 1);
    }
    DivModUnique(a * x, a * m, q, a * r);
  }

  lemma Pow2Of64()
    ensures Pow2(64) == W64
  {
    Pow2Table();
  }

  /** The bitset of a 64-bit value holds that value */
  lemma BitsOfU64(l: u64)
    ensures ToNat(BitsOf(l, 0, 64)) == l
  {
    Pow2Of64();
    SmallBitsOf(l, 64);
  }

  /** Shifting a 64-bit bitset left multiplies modulo 2^64 */
  lemma ShiftLeftValue(l: u64, n: nat)
    ensures ToNat(ShiftLeftBits(BitsOf(l, 0, 64), n)) == if n < 64 then (l * Pow2(n)) % W64 else 0
  {
    if n >= 64 {
      ToNatZeros(64);
    } else {
      ShiftLeftInRange(l, n);
    }
  }

  lemma ShiftLeftInRange(l: u64, n: nat)
    requires n < 64
    ensures ToNat(ShiftLeftBits(BitsOf(l, 0, 64), n)) == (l * Pow2(n)) % W64
  {
    var s := BitsOf(l, 0, 64);
    ShiftLeftBitsValue(s, n);
    assert ToNat(s[..64 - n]) == l % Pow2(64 - n) by {
      ToNatSplit(s, 64 - n);
      BitsOfU64(l);
    }
    Pow2Add(n, 64 - n);
    Pow2Of64();
    ShiftLeftArith(l, Pow2(n), Pow2(64 - n));
  }

  /** Shifting a bitset left by n multiplies the bits that stay by 2^n */
  lemma ShiftLeftBitsValue(s: seq<bool>, n: nat)
    requires n < |s|
    ensures ToNat(ShiftLeftBits(s, n)) == Pow2(n) * ToNat(s[..|s| - n])
  {
    ToNatAppend(Zeros(n), s[..|s| - n]);
    ToNatZeros(n);
  }

  lemma ShiftLeftArith(l: nat, p: nat, q: nat)
    requires p > 0 && q > 0 && p * q == W64
    ensures p * (l % q) == (l * p) % W64
  {
    MulMod(p, l, q);
    assert p * l == l * p;
  }

  /** Shifting a 64-bit bitset right divides, rounding down */
  lemma ShiftRightValue(l: u64, n: nat)
    ensures ToNat(ShiftRightBits(BitsOf(l, 0, 64), n)) == l / Pow2(n) <= l
  {
    DivModUnique(l, Pow2(n), l / Pow2(n), l % Pow2(n));
    MulAtLeast(Pow2(n), 1);
    if l / Pow2(n) > 0 {
      MulAtLeast(l / Pow2(n), Pow2(n));
    }
    var s := BitsOf(l, 0, 64);
    if n >= 64 {
      ToNatZeros(64);
      Pow2Of64();
      Pow2Monotone(64, n);
      DivModUnique(l, Pow2(n), 0, l);
    } else {
      calc {
        ToNat(ShiftRightBits(s, n));
        ToNat(s[n..] + Zeros(n));
        { ToNatPadZeros(s[n..], n); }
        ToNat(s[n..]);
        { ToNatSplit(s, n); BitsOfU64(l); }
        l / Pow2(n);
      }
    }
  }

  /** A conjunction of bitsets is no larger than either operand */
  lemma {:induction false} AndBitsBound(a: seq<bool>, b: seq<bool>)
    requires |a| == |b|
    ensures ToNat(AndBits(a, b)) <= ToNat(a) && ToNat(AndBits(a, b)) <= ToNat(b)
    decreases |a|
  {
    if a != [] {
      assert AndBits(a, b)[1..] == AndBits(a[1..], b[1..]);
      AndBitsBound(a[1..], b[1..]);
    }
  }

  /** Bit i of a bitset's value is the bitset's entry i */
  lemma BitOfToNat(s: seq<bool>, i: nat)
    requires i < |s|
    ensures Bit(ToNat(s), i) == if s[i] then 1 else 0
  {
    var t := s[i..];
    var b := if s[i] then 1 else 0;
    ToNatSplit(s, i);
    assert ToNat(t) == b + 2 * ToNat(t[1..]);
    DivModUnique(ToNat(t), 2, ToNat(t[1..]), b);
  }

  /** The conjunction of two 64-bit bitsets holds, bit by bit, the product
      of the operands' bits */
  lemma AndBitsOfU64(l: u64, m: u64)
    ensures forall i :: 0 <= i < 64 ==>
      Bit(ToNat(AndBits(BitsOf(l, 0, 64), BitsOf(m, 0, 64))), i) == Bit(l, i) * Bit(m, i)
  {
    var t := AndBits(BitsOf(l, 0, 64), BitsOf(m, 0, 64));
    forall i | 0 <= i < 64
      ensures Bit(ToNat(t), i) == Bit(l, i) * Bit(m, i)
    {
      BitOfToNat(t, i);
    }
  }

  // ---------------------------------------------------------------------
  // The private operations with more to them than one assignment
  // ---------------------------------------------------------------------

  /** addi: the int immediate is converted to uint64_t and added; the
      outcome is the integer sum modulo 2^64 */
  function Addi(l: u64, imm: int): (r: u64)
    requires IsInt(imm)
    ensures r == (l + imm) % W64
  {
    var sum := l + ToU64(imm);
    DivModUnique(sum, W64, sum / W64, sum % W64);
    assert imm < 0 ==> sum == (l + imm) + W64;
    DivModUnique(l + imm, W64, if imm < 0 then sum / W64 - 1 else sum / W64, sum % W64);
    sum % W64
  }

  /** sll: `bitset<64>(L) << I`, the int shift amount read as size_t */
  function Sll(l: u64, imm: int): (r: u64)
    requires IsInt(imm)
    ensures 0 <= imm < 64 ==> r == (l * Pow2(imm)) % W64
    ensures !(0 <= imm < 64) ==> r == 0
  {
    var n := ToU64(imm);
    ShiftLeftValue(l, n);
    ToNat(ShiftLeftBits(BitsOf(l, 0, 64), n))
  }

  /** srl: `bitset<64>(L) >> I`, the int shift amount read as size_t */
  function Srl(l: u64, imm: int): (r: u64)
    requires IsInt(imm)
    ensures 0 <= imm < 64 ==> r == l / Pow2(imm)
    ensures !(0 <= imm < 64) ==> r == 0
  {
    var n := ToU64(imm);
    ShiftRightValue(l, n);
    assert !(0 <= imm < 64) ==> l / Pow2(n) == 0 by {
      if !(0 <= imm < 64) {
        Pow2Of64();
        Pow2Monotone(64, n);
        DivModUnique(l, Pow2(n), 0, l);
      }
    }
    ToNat(ShiftRightBits(BitsOf(l, 0, 64), n))
  }

  /** andi: `bitset<64>(L) & bitset<64>(I)`, I sign-extended */
  function Andi(l: u64, imm: int): (r: u64)
    requires IsInt(imm)
    ensures forall i :: 0 <= i < 64 ==> Bit(r, i) == Bit(l, i) * Bit(ToU64(imm), i)
    ensures r <= l && r <= ToU64(imm)
  {
    var a, b := BitsOf(l, 0, 64), BitsOf(ToU64(imm), 0, 64);
    BitsOfU64(l);
    BitsOfU64(ToU64(imm));
    AndBitsBound(a, b);
    AndBitsOfU64(l, ToU64(imm));
    ToNat(AndBits(a, b))
  }

  /** call: `PC += addr * 4 - 4` in uint64_t, addr the immediate converted
      to uint64_t; the outcome is the integer sum modulo 2^64 */
  function Call(imm: int, pc: u64): (r: u64)
    requires IsInt(imm)
    ensures r == (pc + 4 * imm - 4) % W64
  {
    var scaled := (ToU64(imm) * 4) % W64;
    var delta := (scaled - 4) % W64;
    ModSum(pc, delta, 4 * imm - 4);
    (pc + delta) % W64
  }

  /** Adding a number congruent to d modulo 2^64 */
  lemma ModSum(p: int, e: int, d: int)
    requires e % W64 == d % W64
    ensures (p + e) % W64 == (p + d) % W64
  {
    var k := e / W64 - d / W64;
    assert e == d + W64 * k;
    DivModUnique(p + e, W64, (p + d) / W64 + k, (p + d) % W64);
  }

  /** The branch conditions by funct3: beq, bne, an unsigned blt, and an
      unsigned `>=` for funct3 5 and 7 */
  predicate BranchTaken(funct3: nat, l: u64, r: u64)
  {
    if funct3 == 0 then l == r
    else if funct3 == 1 then l != r
    else if funct3 == 4 then l < r
    else if funct3 == 5 || funct3 == 7 then l >= r
    else false
  }

  // ---------------------------------------------------------------------
  // The execute stage
  // ---------------------------------------------------------------------

  /** The result register and program counter after `execute` */
  datatype ExecResult = ExecResult(result: u64, pc: u64)

  /** The result of an OP-IMM or OP-IMM-32 instruction on source register
      value l: li, addi or mv by funct3 0, then slli, srli and andi */
  function OpImmResult(d: DecodedInstruction, l: u64, result: u64): u64
    requires IsInt(d.immediate)
  {
    if d.funct3 == 0 then
      if d.reg1 == 0 then ToU64(d.immediate)
      else if d.reg2 == 0 then Addi(l, d.immediate)
      else l
    else if d.funct3 == 1 then Sll(l, d.immediate)
    else if d.funct3 == 5 then Srl(l, d.immediate)
    else if d.funct3 == 7 then Andi(l, d.immediate)
    else result
  }

  /** What `execute` does, given the register contents; add, sub, li, mv,
      jump and lui are single assignments written in place */
  function ExecuteStep(d: DecodedInstruction, regs: seq<u64>, result: u64, pc: u64): ExecResult
    requires |regs| == NumRegs && IsInt(d.immediate)
    requires d.opcode == 0x37 ==> IsInt(d.immediate * 0x1000)
  {
    var l, r := regs[d.reg1], regs[d.reg2];
    if d.opcode == 0x33 || d.opcode == 0x3b then
      if d.funct5 == 0 then ExecResult((l + r) % W64, pc)
      else if d.funct5 == 8 then ExecResult((l - r) % W64, pc)
      else ExecResult(result, pc)
    else if d.opcode == 0x13 || d.opcode == 0x1b then ExecResult(OpImmResult(d, l, result), pc)
    else if d.opcode == 0x67 then ExecResult(result, l)
    else if d.opcode == 0x63 then
      ExecResult(result, if BranchTaken(d.funct3, l, r) then Call(d.immediate, pc) else pc)
    else if d.opcode == 0x37 then ExecResult(ToU64(d.immediate * 0x1000), pc)
    else if d.opcode == 0x6f then ExecResult(pc, Call(d.immediate, pc))
    else ExecResult(result, pc)
  }

  // ---------------------------------------------------------------------
  // The memory stage
  // ---------------------------------------------------------------------

  /** The store size by funct3 */
  function StoreWidth(funct3: nat): (w: Width)
    requires funct3 <= 3
    ensures w == Pow2(funct3)
  {
    if funct3 == 0 then 1 else if funct3 == 1 then 2 else if funct3 == 2 then 4 else 8
  }

  /** The zero-filled, writable region a store of width w at addr adds to the bus */
  function StoreRegion(addr: u64, width: Width): Memory.Region
  {
    Memory.SetMayWrite(Memory.NewRegion("data", seq(width, i => 0), addr), true)
  }

  /** The bus clients and outcome after `store`: the new region is appended
      first, then the value, truncated to the store size, is written
      through the bus */
  function StoreStep(clients: seq<Client>, addr: u64, value: u64, funct3: nat): (r: (seq<Client>, Outcome))
    requires funct3 <= 3
  {
    var width: nat := StoreWidth(funct3);
    var cs := clients + [Ram(StoreRegion(addr, width))];
    Pow2Monotone(0, 8 * width);
    match BusWrite(cs, addr, width, value % Pow2(8 * width))
    case Ok(cs') => (cs', Pass)
    case Err(f) => (cs, Fail(f))
  }

  /** The casts to uint8_t, uint16_t and uint32_t keep the value modulo 2^(8 width) */
  lemma TruncationModuli(value: u64)
    ensures Pow2(8) == 0x100 && Pow2(16) == 0x10000 && Pow2(32) == 0x1_0000_0000 && Pow2(64) == W64
    ensures value % Pow2(64) == value
  {
    Pow2Table();
  }

  /** The result and outcome after `load`: funct3 mod 4 selects the size, the
      value read is zero-extended, and a funct3 of 8 or more reads nothing */
  function LoadStep(clients: seq<Client>, addr: u64, funct3: nat, result: u64): (r: (u64, Outcome))
  {
    if funct3 >= 8 then (result, Pass)
    else
      var width: Width := StoreWidth(funct3 % 4);
      match BusRead(clients, addr, width)
      case Ok(v) =>
        assert v < W64 by {
          LoadFits(clients, addr, width);
        }
        (v, Pass)
      case Err(f) => (result, Fail(f))
  }

  /** A value read from the bus fits the width read */
  lemma LoadFits(clients: seq<Client>, addr: u64, width: Width)
    ensures BusRead(clients, addr, width).Ok? ==> BusRead(clients, addr, width).value < Pow2(8 * width) <= W64
  {
    WidthFits(width);
    match FirstOwner(clients, addr)
    case None =>
    case Some(i) =>
  }

  /** Every access width fits the 64-bit register */
  lemma WidthFits(width: Width)
    ensures Pow2(8 * width) <= W64
  {
    Pow2Table();
  }

  /** The width `load` reads: the source tests funct3 against each of the
      four pairs {0,4}, {1,5}, {2,6}, {3,7} in turn, and at most one holds */
  method LoadWidth(funct3: nat) returns (width: Width)
    requires funct3 < 8
    ensures width == StoreWidth(funct3 % 4)
  {
    width := 1;
    if funct3 == 0x01 || funct3 == 0x05 {
      width := 2;
    }
    if funct3 == 0x02 || funct3 == 0x06 {
      width := 4;
    }
    if funct3 == 0x03 || funct3 == 0x07 {
      width := 8;
    }
  }

  /** The result register, the bus clients and the outcome after `memorycontroller` */
  datatype MemResult = MemResult(result: u64, clients: seq<Client>, outcome: Outcome)

  function MemoryStep(d: DecodedInstruction, regs: seq<u64>, result: u64, clients: seq<Client>): MemResult
    requires |regs| == NumRegs && IsInt(d.immediate)
    requires d.opcode == 0x23 ==> d.funct3 <= 3
  {
    var addr := Addi(regs[d.reg1], d.immediate);
    if d.opcode == 0x23 then
      var (cs, o) := StoreStep(clients, addr, regs[d.reg2], d.funct3);
      MemResult(addr, cs, o)
    else if d.opcode == 0x03 then
      var (v, o) := LoadStep(clients, addr, d.funct3, addr);
      MemResult(v, clients, o)
    else MemResult(result, clients, Pass)
  }

  // ---------------------------------------------------------------------
  // The unit
  // ---------------------------------------------------------------------

  class ALU {
    var result: u64
    var flag: u64

    constructor ()
      ensures result == 0 && flag == 0
    {
      result, flag := 0, 0;
    }

    method Clear()
      modifies this
      ensures result == 0 && flag == 0
    {
      result := 0;
      flag := 0;
    }

    /** The OP-IMM part of `execute` */
    method ExecuteOpImm(d: DecodedInstruction, l: u64)
      requires IsInt(d.immediate)
      modifies this
      ensures result == OpImmResult(d, l, old(result))
      ensures flag == old(flag)
    {
      if d.funct3 == 0x00 {
        if d.reg1 == 0 {
          result := ToU64(d.immediate);
        } else if d.reg2 == 0 {
          result := Addi(l, d.immediate);
        } else {
          result := l;
        }
      }
      if d.funct3 == 0x01 {
        result := Sll(l, d.immediate);
      }
      if d.funct3 == 0x05 {
        result := Srl(l, d.immediate);
      }
      if d.funct3 == 0x07 {
        result := Andi(l, d.immediate);
      }
    }

    /** `execute`: updates the result register and returns the new program
        counter; register reads cannot fault, every decoded index being in range */
    method Execute(d: DecodedInstruction, rf: RegisterFile, pc: u64) returns (newPC: u64)
      requires rf.Valid() && IsInt(d.immediate)
      requires d.opcode == 0x37 ==> IsInt(d.immediate * 0x1000)
      modifies this
      ensures ExecResult(result, newPC) == ExecuteStep(d, rf.Contents(), old(result), pc)
      ensures flag == old(flag)
    {
      newPC := pc;
      var ra := rf.ReadRegister(d.reg1);
      var rb := rf.ReadRegister(d.reg2);
      var l, r := ra.value, rb.value;

      if d.opcode == 0x33 || d.opcode == 0x3b {
        if d.funct5 == 0x00 {
          result := (l + r) % W64;
        }
        if d.funct5 == 0x08 {
          result := (l - r) % W64;
        }
      }

      if d.opcode == 0x13 || d.opcode == 0x1b {
        ExecuteOpImm(d, l);
      }

      if d.opcode == 0x67 {
        newPC := l;
      }

      if d.opcode == 0x63 {
        if d.funct3 == 0x00 && l == r {
          newPC := Call(d.immediate, newPC);
        }
        if d.funct3 == 0x01 && l != r {
          newPC := Call(d.immediate, newPC);
        }
        if d.funct3 == 0x04 && l < r {
          newPC := Call(d.immediate, newPC);
        }
        if (d.funct3 == 0x05 || d.funct3 == 0x07) && l >= r {
          newPC := Call(d.immediate, newPC);
        }
      }

      if d.opcode == 0x37 {
        result := ToU64(d.immediate * 0x1000);
      }

      if d.opcode == 0x6f {
        result := newPC;
        newPC := Call(d.immediate, newPC);
      }
    }

    /** `memorycontroller`: the address is rs1 + imm; stores write rs2,
        loads replace the result with the value read */
    method MemoryController(d: DecodedInstruction, rf: RegisterFile, bus: MemoryBus) returns (o: Outcome)
      requires rf.Valid() && IsInt(d.immediate)
      requires d.opcode == 0x23 ==> d.funct3 <= 3
      modifies this, bus
      ensures MemResult(result, bus.clients, o) == MemoryStep(d, rf.Contents(), old(result), old(bus.clients))
      ensures flag == old(flag)
    {
      o := Pass;
      if d.opcode == 0x23 {
        var ra := rf.ReadRegister(d.reg1);
        result := Addi(ra.value, d.immediate);
        var rb := rf.ReadRegister(d.reg2);
        o := Store(result, rb.value, d.funct3, bus);
      }
      if d.opcode == 0x03 {
        var ra := rf.ReadRegister(d.reg1);
        result := Addi(ra.value, d.immediate);
        o := Load(result, d.funct3, bus);
      }
    }

    /** `store`: appends a fresh writable region of the store size at addr,
        then writes the truncated value through the bus */
    method Store(addr: u64, value: u64, funct3: nat, bus: MemoryBus) returns (o: Outcome)
      requires funct3 <= 3
      modifies bus
      ensures (bus.clients, o) == StoreStep(old(bus.clients), addr, value, funct3)
    {
      var size: Width := 1;
      if funct3 == 0x01 {
        size := 2;
      }
      if funct3 == 0x02 {
        size := 4;
      }
      if funct3 == 0x03 {
        size := 8;
      }
      var memory := Memory.NewRegion("data", seq(size, i => 0), addr);
      memory := Memory.SetMayWrite(memory, true);
      bus.AddClient(Ram(memory));
      ghost var cs := bus.clients;
      TruncationModuli(value);
      if funct3 == 0x00 {
        o := bus.Write(addr, 1, value % 0x100);
      }
      if funct3 == 0x01 {
        o := bus.Write(addr, 2, value % 0x10000);
      }
      if funct3 == 0x02 {
        o := bus.Write(addr, 4, value % 0x1_0000_0000);
      }
      if funct3 == 0x03 {
        o := bus.Write(addr, 8, value);
      }
    }

    /** `load`: the size by funct3 mod 4, the value zero-extended */
    method Load(addr: u64, funct3: nat, bus: MemoryBus) returns (o: Outcome)
      modifies this
      ensures (result, o) == LoadStep(bus.clients, addr, funct3, old(result))
      ensures flag == old(flag)
    {
      o := Pass;
      if funct3 >= 8 {
        return;
      }
      var width := LoadWidth(funct3);
      var r := bus.Read(addr, width);
      if r.Err? {
        return Fail(r.fault);
      }
      LoadFits(bus.clients, addr, width);
      result := r.value;
    }
  }

  // ---------------------------------------------------------------------
  // Properties of execute, stated on encoded instructions
  // ---------------------------------------------------------------------

  /** A branch: taken, the program counter moves by 4 imm - 4; not taken,
      it stays; the result is untouched */
  lemma BranchStep(d: DecodedInstruction, regs: seq<u64>, result: u64, pc: u64)
    requires d.opcode == 0x63 && IsInt(d.immediate) && |regs| == NumRegs
    ensures var e := ExecuteStep(d, regs, result, pc);
      && e.result == result
      && e.pc == if BranchTaken(d.funct3, regs[d.reg1], regs[d.reg2]) then (pc + 4 * d.immediate - 4) % W64 else pc
  {
  }

  /** Both the sum with the incremented pc and with fetch + 4 agree modulo 2^64 */
  lemma FromFetch(fetch: u64, delta: int)
    ensures ((fetch + 4) % W64 + delta) % W64 == (fetch + 4 + delta) % W64
  {
    ModSum(delta, (fetch + 4) % W64, fetch + 4);
  }

  /** A branch fetched at `fetch` whose encoded byte offset off is not
      negative decodes to the immediate off / 2 (DecodeEncodeB): taken, it
      lands at twice the offset past the branch, since the unit scales the
      unhalved immediate by 4; not taken, it falls through */
  lemma BranchForward(d: DecodedInstruction, off: int, fetch: u64, regs: seq<u64>, result: u64)
    requires d.opcode == 0x63 && off % 2 == 0 && 0 <= off < 0x1000 && d.immediate == off / 2
    requires |regs| == NumRegs
    ensures var e := ExecuteStep(d, regs, result, (fetch + 4) % W64);
      && e.result == result
      && e.pc == if BranchTaken(d.funct3, regs[d.reg1], regs[d.reg2]) then (fetch + 2 * off) % W64 else (fetch + 4) % W64
  {
    BranchStep(d, regs, result, (fetch + 4) % W64);
    FromFetch(fetch, 4 * (off / 2) - 4);
  }

  /** A branch whose negative encoded offset 4 k is a multiple of 4 decodes
      to the immediate k (DecodeEncodeB): taken, it lands exactly at the
      offset from the branch */
  lemma BranchBackward(d: DecodedInstruction, k: int, fetch: u64, regs: seq<u64>, result: u64)
    requires d.opcode == 0x63 && -0x400 <= k < 0 && d.immediate == k && |regs| == NumRegs
    ensures var e := ExecuteStep(d, regs, result, (fetch + 4) % W64);
      && e.result == result
      && e.pc == if BranchTaken(d.funct3, regs[d.reg1], regs[d.reg2]) then (fetch + 4 * k) % W64 else (fetch + 4) % W64
  {
    BranchStep(d, regs, result, (fetch + 4) % W64);
    FromFetch(fetch, 4 * k - 4);
  }

  /** Any negative encoded offset: the decoder's off / 4 rounds down, so a
      taken branch lands at the offset when it is a multiple of 4 and two
      bytes further back otherwise */
  lemma BranchBackwardOvershoot(d: DecodedInstruction, off: int, fetch: u64, regs: seq<u64>, result: u64)
    requires d.opcode == 0x63 && off % 2 == 0 && -0x1000 <= off < 0 && d.immediate == off / 4
    requires |regs| == NumRegs
    ensures var e := ExecuteStep(d, regs, result, (fetch + 4) % W64);
      && e.result == result
      && e.pc == if BranchTaken(d.funct3, regs[d.reg1], regs[d.reg2])
                 then (fetch + (if off % 4 == 0 then off else off - 2)) % W64
                 else (fetch + 4) % W64
  {
    var k, r := off / 4, off % 4;
    assert off == 4 * k + r && 0 <= r < 4;
    assert off == 2 * (off / 2);
    assert r == 0 || r == 2;
    BranchBackward(d, k, fetch, regs, result);
    assert 4 * k == if r == 0 then off else off - 2;
  }

  /** jal with an encoded offset 4 k decodes to the immediate k
      (DecodeEncodeJ): it leaves the return address, the one after the jump,
      in the result and jumps by the offset */
  lemma JalLinksAndJumps(d: DecodedInstruction, k: int, fetch: u64, regs: seq<u64>, result: u64)
    requires d.opcode == 0x6f && -0x40000 <= k < 0x40000 && d.immediate == k && |regs| == NumRegs
    ensures ExecuteStep(d, regs, result, (fetch + 4) % W64) == ExecResult((fetch + 4) % W64, (fetch + 4 * k) % W64)
  {
    FromFetch(fetch, 4 * k - 4);
  }

  /** jalr jumps to rs1 and nothing else: the offset is ignored and no return
      address is produced */
  lemma JalrIgnoresOffset(d: DecodedInstruction, regs: seq<u64>, result: u64, pc: u64)
    requires d.opcode == 0x67 && IsInt(d.immediate) && |regs| == NumRegs
    ensures ExecuteStep(d, regs, result, pc) == ExecResult(result, regs[d.reg1])
    ensures forall imm :: IsInt(imm) ==> ExecuteStep(d.(immediate := imm), regs, result, pc) == ExecuteStep(d, regs, result, pc)
  {
  }

  /** The immediate-arithmetic group as decoded (reg2 = 0, DecodeEncodeI):
      funct3 0 adds the immediate to rs1 modulo 2^64 (li, from x0, included);
      funct3 1 and 5 shift by an amount below 64, and yield 0 for any larger
      immediate, the srai encoding among them; funct3 7 is the bitwise AND of rs1 and the
      sign-extended immediate, so bounded by a non-negative immediate; every
      other funct3 leaves the result */
  lemma OpImmStep(d: DecodedInstruction, regs: seq<u64>, result: u64, pc: u64)
    requires (d.opcode == 0x13 || d.opcode == 0x1b) && IsInt(d.immediate) && |regs| == NumRegs && regs[0] == 0
    requires d.reg2 == 0
    ensures var e := ExecuteStep(d, regs, result, pc);
      && e.pc == pc
      && (d.funct3 == 0 ==> e.result == (regs[d.reg1] + d.immediate) % W64)
      && (d.funct3 == 1 && 0 <= d.immediate < 64 ==> e.result == (regs[d.reg1] * Pow2(d.immediate)) % W64)
      && (d.funct3 == 5 && 0 <= d.immediate < 64 ==> e.result == regs[d.reg1] / Pow2(d.immediate))
      && ((d.funct3 == 1 || d.funct3 == 5) && 64 <= d.immediate ==> e.result == 0)
      && (d.funct3 == 7 ==> forall i :: 0 <= i < 64 ==>
            Bit(e.result, i) == Bit(regs[d.reg1], i) * Bit(ToU64(d.immediate), i))
      && (d.funct3 == 7 && 0 <= d.immediate ==> e.result <= d.immediate)
      && (d.funct3 !in {0, 1, 5, 7} ==> e.result == result)
  {
    if d.funct3 == 0 && d.reg1 == 0 {
      DivModUnique(d.immediate, W64, if d.immediate < 0 then -1 else 0, ToU64(d.immediate));
    }
  }

  /** R-type: funct5 0 adds, funct5 8 (funct7 0x20) subtracts, modulo 2^64,
      and funct3 plays no part */
  lemma RTypeAddSub(d: DecodedInstruction, regs: seq<u64>, result: u64, pc: u64)
    requires (d.opcode == 0x33 || d.opcode == 0x3b) && IsInt(d.immediate) && |regs| == NumRegs
    ensures var e := ExecuteStep(d, regs, result, pc);
      && e.pc == pc
      && (d.funct5 == 0 ==> e.result == (regs[d.reg1] + regs[d.reg2]) % W64)
      && (d.funct5 == 8 ==> e.result == (regs[d.reg1] - regs[d.reg2]) % W64)
      && (d.funct5 != 0 && d.funct5 != 8 ==> e.result == result)
    ensures forall f3: nat :: ExecuteStep(d.(funct3 := f3), regs, result, pc) == ExecuteStep(d, regs, result, pc)
  {
  }

  /** lui places the 20-bit immediate in bits 12..31 */
  lemma LuiShiftsImmediate(d: DecodedInstruction, regs: seq<u64>, result: u64, pc: u64)
    requires d.opcode == 0x37 && 0 <= d.immediate < 0x80000 && |regs| == NumRegs
    ensures ExecuteStep(d, regs, result, pc) == ExecResult(d.immediate * 0x1000, pc)
  {
  }

  /** An instruction the unit does not handle changes neither the result
      nor the program counter */
  lemma UnhandledLeavesState(d: DecodedInstruction, regs: seq<u64>, result: u64, pc: u64)
    requires |regs| == NumRegs && IsInt(d.immediate)
    requires d.opcode !in {0x33, 0x3b, 0x13, 0x1b, 0x67, 0x63, 0x37, 0x6f}
    ensures ExecuteStep(d, regs, result, pc) == ExecResult(result, pc)
  {
  }

  // ---------------------------------------------------------------------
  // Properties of the memory stage
  // ---------------------------------------------------------------------

  /** Every store adds exactly one client at the end of the bus, whatever
      its outcome, and the clients already there keep their ranges */
  lemma StoreAddsOneClient(clients: seq<Client>, addr: u64, value: u64, funct3: nat)
    requires funct3 <= 3
    ensures var cs := StoreStep(clients, addr, value, funct3).0;
      && |cs| == |clients| + 1
      && (forall j :: 0 <= j < |clients| ==> SameRange(cs[j], clients[j]))
      && cs[|clients|].Ram? && cs[|clients|].region.base == addr
  {
    var width: nat := StoreWidth(funct3);
    var cs := clients + [Ram(StoreRegion(addr, width))];
    Pow2Monotone(0, 8 * width);
    var res := BusWrite(cs, addr, width, value % Pow2(8 * width));
    if res.Ok? {
      var i := FirstOwner(cs, addr).value;
      forall j | 0 <= j < |cs|
        ensures SameRange(res.value[j], cs[j])
      {
        if j == i {
          SameRangeSymmetric(cs[j], res.value[j]);
        }
      }
    }
  }

  lemma SameRangeSymmetric(c: Client, d: Client)
    requires SameRange(c, d)
    ensures SameRange(d, c)
  {
  }

  /** A store that succeeds into RAM (its own fresh region or an earlier one)
      reads back as the stored value truncated to the store size */
  lemma StoreThenLoad(clients: seq<Client>, addr: u64, value: u64, funct3: nat)
    requires funct3 <= 3
    requires FirstOwner(clients, addr).Some? ==> clients[FirstOwner(clients, addr).value].Ram?
    ensures var (cs, o) := StoreStep(clients, addr, value, funct3);
      o == Pass ==> BusRead(cs, addr, StoreWidth(funct3)) == Ok(value % Pow2(8 * StoreWidth(funct3)))
  {
    var width: Width := StoreWidth(funct3);
    var c := Ram(StoreRegion(addr, width));
    var cs := clients + [c];
    Pow2Monotone(0, 8 * (width as nat));
    AddClientKeepsPriority(clients, c, addr);
    if BusWrite(cs, addr, width, value % Pow2(8 * width)).Ok? {
      BusReadAfterWrite(cs, addr, width, value % Pow2(8 * width));
    }
  }

  /** A store to an address no client owns succeeds in its own fresh region,
      provided that region does not reach the top of the address space */
  lemma StoreToUnclaimed(clients: seq<Client>, addr: u64, value: u64, funct3: nat)
    requires funct3 <= 3 && addr + StoreWidth(funct3) < W64
    requires FirstOwner(clients, addr).None?
    ensures var (cs, o) := StoreStep(clients, addr, value, funct3);
      && o == Pass
      && cs[..|clients|] == clients
      && BusRead(cs, addr, StoreWidth(funct3)) == Ok(value % Pow2(8 * StoreWidth(funct3)))
  {
    var width := StoreWidth(funct3);
    var c := Ram(StoreRegion(addr, width));
    AddClientKeepsPriority(clients, c, addr);
    assert ClientContains(c, addr);
    StoreThenLoad(clients, addr, value, funct3);
  }

  /** A store whose address a read-only region owns faults with an illegal
      sized access, and the fresh region it added stays on the bus */
  lemma StoreToReadOnly(clients: seq<Client>, addr: u64, value: u64, funct3: nat)
    requires funct3 <= 3
    requires FirstOwner(clients, addr).Some?
    requires var c := clients[FirstOwner(clients, addr).value]; c.Ram? && !c.region.mayWrite
    ensures StoreStep(clients, addr, value, funct3)
         == (clients + [Ram(StoreRegion(addr, StoreWidth(funct3)))], Fail(IllegalAccessSized(addr, StoreWidth(funct3))))
  {
    var width := StoreWidth(funct3);
    AddClientKeepsPriority(clients, Ram(StoreRegion(addr, width)), addr);
  }

  /** A load zero-extends: the value is below 2^(8 size); on a fault the
      result keeps the computed address */
  lemma LoadZeroExtends(clients: seq<Client>, addr: u64, funct3: nat, result: u64)
    requires funct3 < 8
    ensures var (v, o) := LoadStep(clients, addr, funct3, result);
      && (o == Pass ==> v < Pow2(8 * StoreWidth(funct3 % 4)))
      && (o.Fail? ==> v == result)
  {
    LoadFits(clients, addr, StoreWidth(funct3 % 4));
  }
}

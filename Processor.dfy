/** The processor: ties the decoder, register file, ALU and memory bus
    together and runs the five-stage loop (fetch, decode, execute, memory,
    write-back) one instruction at a time until the system controller asks
    to halt or a fault ends the run. */
module Processor {
  import opened Arch
  import opened Faults
  import opened Decoder
  import opened RegFile
  import Memory
  import Serial
  import SysControl
  import opened Interconnect
  import opened Alu
  import Encoding

  /** How a run ends: the source's boolean verdict, or, in the model only,
      the fuel running out or an instruction whose effect the source leaves
      undefined */
  datatype RunResult = Finished(success: bool) | OutOfFuel | Undefined

  /** The architectural state the loop changes */
  datatype Machine = Machine(pc: u64, regs: seq<u64>, clients: seq<Client>, nCycles: int, nInstructions: int)

  /** Where pc points once the fetch has consumed a word: the next word,
      wrapping at 2^64 like the source's unsigned pc */
  const NextPc: u64 -> u64 := pc => (pc + 4) % W64

  /** The register file has its 32 registers with x0 zero, and the system
      controller sits at index ci on the bus */
  predicate WellFormed(m: Machine, ci: nat)
  {
    |m.regs| == NumRegs && m.regs[0] == 0 && ci < |m.clients| && m.clients[ci].Control?
  }

  /** The controller's halt flag */
  predicate Halted(m: Machine, ci: nat)
    requires ci < |m.clients| && m.clients[ci].Control?
  {
    m.clients[ci].controller.shouldHalt
  }

  /** Decoded instructions the source gives a meaning: a store's funct3
      selects a size only up to 3 (above, the size is read uninitialised),
      and lui's immediate times 4096 must fit an int */
  predicate Defined(d: DecodedInstruction)
  {
    (d.opcode == 0x23 ==> d.funct3 <= 3) && (d.opcode == 0x37 ==> IsInt(d.immediate * 0x1000))
  }

  /** Every decoded immediate fits an int */
  lemma DecodedImmediateIsInt(w: u32)
    ensures IsInt(Decode(w).immediate)
  {
    Encoding.DecodeImmediateRange(w);
  }

  /** Instruction fetch: the 32-bit word at pc, or a fetch failure */
  function Fetch(clients: seq<Client>, pc: u64): (r: Result<u32>)
    ensures r.Ok? <==> BusRead(clients, pc, 4).Ok?
    ensures r.Ok? ==> r.value == BusRead(clients, pc, 4).value
    ensures r.Err? ==> r.fault == InstructionFetchFailure(pc)
  {
    match BusRead(clients, pc, 4)
    case Ok(v) =>
      FetchFits(clients, pc);
      Ok(v)
    case Err(_) => Err(InstructionFetchFailure(pc))
  }

  /** A fetched word fits 32 bits */
  lemma FetchFits(clients: seq<Client>, pc: u64)
    ensures BusRead(clients, pc, 4).Ok? ==> BusRead(clients, pc, 4).value < 0x1_0000_0000
  {
    LoadFits(clients, pc, 4);
    TruncationModuli(0);
  }

  /** One iteration of the loop either continues with the next machine or
      stops the run */
  datatype Step = Continue(next: Machine) | Stop(outcome: RunResult, last: Machine)

  /** One iteration after the halt check: each stage first counts a cycle; a
      fetch failure ends the run with the test-mode verdict */
  function Cycle(m: Machine, testMode: bool): Step
    requires |m.regs| == NumRegs
  {
    match Fetch(m.clients, m.pc)
    case Err(_) => Stop(Finished(testMode), m.(nCycles := m.nCycles + 1))
    case Ok(w) =>
      DecodedImmediateIsInt(w);
      Complete(m.(pc := NextPc(m.pc), nCycles := m.nCycles + 2), Decode(w))
  }

  /** The rest of an iteration once the instruction is decoded and pc
      advanced: execute, memory and write-back; a memory fault ends the run
      with failure, and a completed write-back counts an instruction */
  function Complete(m: Machine, d: DecodedInstruction): Step
    requires |m.regs| == NumRegs && IsInt(d.immediate)
  {
    if !Defined(d) then Stop(Undefined, m)
    else
      var e := ExecuteStep(d, m.regs, 0, m.pc);
      var mr := MemoryStep(d, m.regs, e.result, m.clients);
      if mr.outcome.Fail? then Stop(Finished(false), Machine(e.pc, m.regs, mr.clients, m.nCycles + 2, m.nInstructions))
      else
        var regs := if d.reg0 != 0 then m.regs[d.reg0 := mr.result] else m.regs;
        Continue(Machine(e.pc, regs, mr.clients, m.nCycles + 3, m.nInstructions + 1))
  }

  lemma CycleFetchFails(m: Machine, testMode: bool)
    requires |m.regs| == NumRegs && Fetch(m.clients, m.pc).Err?
    ensures Cycle(m, testMode) == Stop(Finished(testMode), m.(nCycles := m.nCycles + 1))
  {
  }

  lemma CycleFetched(m: Machine, testMode: bool, w: u32, mid: Machine)
    requires |m.regs| == NumRegs && Fetch(m.clients, m.pc) == Ok(w)
    requires mid == m.(pc := NextPc(m.pc), nCycles := m.nCycles + 2)
    ensures IsInt(Decode(w).immediate)
    ensures Cycle(m, testMode) == Complete(mid, Decode(w))
  {
    DecodedImmediateIsInt(w);
  }

  lemma CompleteOf(m: Machine, d: DecodedInstruction, e: ExecResult, mr: MemResult)
    requires |m.regs| == NumRegs && IsInt(d.immediate) && Defined(d)
    requires e == ExecuteStep(d, m.regs, 0, m.pc) && mr == MemoryStep(d, m.regs, e.result, m.clients)
    ensures Complete(m, d) == if mr.outcome.Fail? then Stop(Finished(false), Machine(e.pc, m.regs, mr.clients, m.nCycles + 2, m.nInstructions))
      else Continue(Machine(e.pc, if d.reg0 != 0 then m.regs[d.reg0 := mr.result] else m.regs, mr.clients, m.nCycles + 3, m.nInstructions + 1))
  {
  }

  /** The cycle as a step function; a machine without its 32 registers
      never arises, and is given the Undefined outcome */
  function CycleOf(testMode: bool): Machine -> Step
  {
    (m: Machine) => if |m.regs| == NumRegs then Cycle(m, testMode) else Stop(Undefined, m)
  }

  /** The machine a step leaves behind */
  function After(s: Step): Machine
  {
    match s
    case Continue(n) => n
    case Stop(_, l) => l
  }

  /** A step function that keeps well-formed machines well formed */
  ghost predicate KeepsWellFormed(step: Machine -> Step, ci: nat)
  {
    forall m {:trigger step(m)} :: WellFormed(m, ci) ==> WellFormed(After(step(m)), ci)
  }

  /** A step function that, on a well-formed machine not yet halted, costs
      five cycles per completed instruction and at most four for a stop, and
      reports success on a stop only in test mode */
  ghost predicate KeepsCounts(step: Machine -> Step, ci: nat, testMode: bool)
  {
    forall m {:trigger step(m)} :: WellFormed(m, ci) ==> StepCounts(m, step(m), testMode)
  }

  predicate StepCounts(m: Machine, s: Step, testMode: bool)
  {
    match s
    case Continue(n) => n.nCycles == m.nCycles + 5 && n.nInstructions == m.nInstructions + 1
    case Stop(o, l) =>
      && m.nCycles < l.nCycles <= m.nCycles + 4 && l.nInstructions == m.nInstructions
      && (o == Finished(true) ==> testMode)
  }

  /** The loop `while (!control->shouldHalt())` over a step function, one
      iteration per unit of fuel */
  function RunSpec(m: Machine, ci: nat, step: Machine -> Step, fuel: nat): (RunResult, Machine)
    requires WellFormed(m, ci) && KeepsWellFormed(step, ci)
    decreases fuel, 0
  {
    if fuel == 0 then (OutOfFuel, m) else Poll(m, ci, step, fuel - 1)
  }

  /** The loop condition: a halted controller ends the run successfully */
  function Poll(m: Machine, ci: nat, step: Machine -> Step, fuel: nat): (RunResult, Machine)
    requires WellFormed(m, ci) && KeepsWellFormed(step, ci)
    decreases fuel, 2
  {
    if Halted(m, ci) then (Finished(true), m) else Iteration(m, ci, step, fuel)
  }

  /** The loop body, then the rest of the loop with the fuel left */
  function Iteration(m: Machine, ci: nat, step: Machine -> Step, fuel: nat): (RunResult, Machine)
    requires WellFormed(m, ci) && KeepsWellFormed(step, ci)
    decreases fuel, 1
  {
    match step(m)
    case Stop(o, m') => (o, m')
    case Continue(m') => RunSpec(m', ci, step, fuel)
  }

  /** One iteration of the loop, unfolded */
  lemma RunSpecStep(m: Machine, ci: nat, step: Machine -> Step, fuel: nat)
    requires WellFormed(m, ci) && KeepsWellFormed(step, ci) && fuel > 0
    ensures RunSpec(m, ci, step, fuel) ==
      if Halted(m, ci) then (Finished(true), m)
      else if step(m).Stop? then (step(m).outcome, step(m).last)
      else RunSpec(step(m).next, ci, step, fuel - 1)
  {
    assert RunSpec(m, ci, step, fuel) == Poll(m, ci, step, fuel - 1);
    if !Halted(m, ci) {
      assert Poll(m, ci, step, fuel - 1) == Iteration(m, ci, step, fuel - 1);
    }
  }

  /** The loop body of the processor's own cycle */
  lemma PollStep(m: Machine, ci: nat, step: Machine -> Step, fuel: nat)
    requires WellFormed(m, ci) && KeepsWellFormed(step, ci) && !Halted(m, ci)
    ensures Poll(m, ci, step, fuel) == Iteration(m, ci, step, fuel)
  {
  }

  lemma IterationStep(m: Machine, ci: nat, step: Machine -> Step, fuel: nat)
    requires WellFormed(m, ci) && KeepsWellFormed(step, ci)
    ensures Iteration(m, ci, step, fuel) ==
      if step(m).Stop? then (step(m).outcome, step(m).last) else RunSpec(step(m).next, ci, step, fuel)
  {
  }

  // ---------------------------------------------------------------------
  // What one cycle keeps
  // ---------------------------------------------------------------------

  /** A successful bus write keeps every controller a controller, and one
      that has been asked to halt stays so */
  lemma BusWriteKeepsHalt(cs: seq<Client>, addr: u64, width: Width, value: nat, j: nat)
    requires value < Pow2(8 * width) && BusWrite(cs, addr, width, value).Ok?
    requires j < |cs| && cs[j].Control?
    ensures var ds := BusWrite(cs, addr, width, value).value;
      && ds[j].Control?
      && (cs[j].controller.shouldHalt ==> ds[j].controller.shouldHalt)
  {
  }

  /** The memory stage keeps the controller at its index, and keeps it
      halted once halted */
  lemma MemoryStepKeepsControl(d: DecodedInstruction, regs: seq<u64>, result: u64, clients: seq<Client>, j: nat)
    requires |regs| == NumRegs && IsInt(d.immediate) && Defined(d)
    requires j < |clients| && clients[j].Control?
    ensures var cs := MemoryStep(d, regs, result, clients).clients;
      && j < |cs| && cs[j].Control?
      && (clients[j].controller.shouldHalt ==> cs[j].controller.shouldHalt)
  {
    if d.opcode == 0x23 {
      var addr := Addi(regs[d.reg1], d.immediate);
      var width: Width := StoreWidth(d.funct3);
      var grown := clients + [Ram(StoreRegion(addr, width))];
      assert grown[j] == clients[j];
      Pow2Monotone(0, 8 * (width as nat));
      var v := regs[d.reg2] % Pow2(8 * width);
      if BusWrite(grown, addr, width, v).Ok? {
        BusWriteKeepsHalt(grown, addr, width, v, j);
      }
    }
  }

  /** One cycle keeps the machine well formed and a halted controller
      halted; a completed instruction costs five cycles, a stop at most four */
  lemma CycleInvariants(m: Machine, ci: nat, testMode: bool)
    requires WellFormed(m, ci)
    ensures var s := Cycle(m, testMode);
      var m' := if s.Continue? then s.next else s.last;
      && WellFormed(m', ci)
      && (Halted(m, ci) ==> Halted(m', ci))
      && (s.Continue? ==> m'.nCycles == m.nCycles + 5 && m'.nInstructions == m.nInstructions + 1)
      && (s.Stop? ==> m.nCycles < m'.nCycles <= m.nCycles + 4 && m'.nInstructions == m.nInstructions)
      && (s.Stop? && s.outcome == Finished(true) ==> testMode)
  {
    match Fetch(m.clients, m.pc)
    case Err(_) =>
    case Ok(w) =>
      var d := Decode(w);
      DecodedImmediateIsInt(w);
      var mid := m.(pc := NextPc(m.pc), nCycles := m.nCycles + 2);
      assert Cycle(m, testMode) == Complete(mid, d);
      CompleteInvariants(mid, d, ci);
  }

  lemma CompleteInvariants(m: Machine, d: DecodedInstruction, ci: nat)
    requires WellFormed(m, ci) && IsInt(d.immediate)
    ensures var s := Complete(m, d);
      var m' := if s.Continue? then s.next else s.last;
      && WellFormed(m', ci)
      && (Halted(m, ci) ==> Halted(m', ci))
      && (s.Continue? ==> m'.nCycles == m.nCycles + 3 && m'.nInstructions == m.nInstructions + 1)
      && (s.Stop? ==> m.nCycles <= m'.nCycles <= m.nCycles + 2 && m'.nInstructions == m.nInstructions)
      && (s.Stop? ==> s.outcome != Finished(true))
  {
    if Defined(d) {
      var e := ExecuteStep(d, m.regs, 0, m.pc);
      MemoryStepKeepsControl(d, m.regs, e.result, m.clients, ci);
    }
  }

  /** The cycle keeps every well-formed machine well formed and meets the
      cycle and instruction counts */
  lemma CycleOfKeeps(ci: nat, testMode: bool)
    ensures KeepsWellFormed(CycleOf(testMode), ci)
    ensures KeepsCounts(CycleOf(testMode), ci, testMode)
  {
    forall m | WellFormed(m, ci)
      ensures WellFormed(After(CycleOf(testMode)(m)), ci)
      ensures StepCounts(m, CycleOf(testMode)(m), testMode)
    {
      CycleInvariants(m, ci, testMode);
    }
  }

  // ---------------------------------------------------------------------
  // Properties of a run
  // ---------------------------------------------------------------------

  /** The halt flag is polled before anything else: a halted machine
      finishes successfully and unchanged */
  lemma RunStopsWhenHalted(m: Machine, ci: nat, testMode: bool, fuel: nat)
    requires WellFormed(m, ci) && Halted(m, ci) && fuel > 0
    ensures KeepsWellFormed(CycleOf(testMode), ci)
    ensures RunSpec(m, ci, CycleOf(testMode), fuel) == (Finished(true), m)
  {
    CycleOfKeeps(ci, testMode);
    RunSpecStep(m, ci, CycleOf(testMode), fuel);
  }

  /** A fetch failure ends the run: successfully in test mode, with failure
      otherwise, after counting the fetch cycle */
  lemma FetchFailureEndsRun(m: Machine, ci: nat, testMode: bool, fuel: nat)
    requires WellFormed(m, ci) && !Halted(m, ci) && fuel > 0
    requires BusRead(m.clients, m.pc, 4).Err?
    ensures KeepsWellFormed(CycleOf(testMode), ci)
    ensures RunSpec(m, ci, CycleOf(testMode), fuel) == (Finished(testMode), m.(nCycles := m.nCycles + 1))
  {
    CycleOfKeeps(ci, testMode);
    RunSpecStep(m, ci, CycleOf(testMode), fuel);
  }

  /** Over a run of any step function that keeps the counts, the machine
      stays well formed, a halted controller stays halted, and the cycle
      count is five per completed instruction plus at most four for a final
      partial one */
  lemma {:induction false} StepRunInvariants(m: Machine, ci: nat, step: Machine -> Step, testMode: bool, fuel: nat)
    requires WellFormed(m, ci) && KeepsWellFormed(step, ci) && KeepsCounts(step, ci, testMode)
    ensures var (o, m') := RunSpec(m, ci, step, fuel);
      && WellFormed(m', ci)
      && (Halted(m, ci) ==> Halted(m', ci))
      && 0 <= m'.nInstructions - m.nInstructions <= fuel
      && 5 * (m'.nInstructions - m.nInstructions) <= m'.nCycles - m.nCycles
      && m'.nCycles - m.nCycles <= 5 * (m'.nInstructions - m.nInstructions) + 4
      && (o == Finished(true) && !testMode ==> Halted(m', ci))
    decreases fuel
  {
    if fuel > 0 && !Halted(m, ci) {
      RunSpecStep(m, ci, step, fuel);
      assert StepCounts(m, step(m), testMode);
      match step(m)
      case Stop(_, _) =>
      case Continue(n) =>
        StepRunInvariants(n, ci, step, testMode, fuel - 1);
    }
  }

  /** The run invariants for the processor's own cycle; in particular, a run
      that reports success outside test mode ended because the controller
      was asked to halt */
  lemma RunInvariants(m: Machine, ci: nat, testMode: bool, fuel: nat)
    requires WellFormed(m, ci)
    ensures KeepsWellFormed(CycleOf(testMode), ci)
    ensures var (o, m') := RunSpec(m, ci, CycleOf(testMode), fuel);
      && WellFormed(m', ci)
      && (Halted(m, ci) ==> Halted(m', ci))
      && 0 <= m'.nInstructions - m.nInstructions <= fuel
      && 5 * (m'.nInstructions - m.nInstructions) <= m'.nCycles - m.nCycles
      && m'.nCycles - m.nCycles <= 5 * (m'.nInstructions - m.nInstructions) + 4
      && (o == Finished(true) && !testMode ==> Halted(m', ci))
  {
    CycleOfKeeps(ci, testMode);
    StepRunInvariants(m, ci, CycleOf(testMode), testMode, fuel);
  }

  /** The clean shutdown: a byte or word store (funct3 0 or 2) whose address
      is the controller's halt address, and which the controller owns,
      completes and leaves the controller halted */
  lemma StoreToHaltAddressHalts(m: Machine, d: DecodedInstruction, ci: nat)
    requires WellFormed(m, ci) && IsInt(d.immediate)
    requires d.opcode == 0x23 && (d.funct3 == 0 || d.funct3 == 2)
    requires Addi(m.regs[d.reg1], d.immediate) == SysControl.HaltAddress(m.clients[ci].controller)
    requires FirstOwner(m.clients, Addi(m.regs[d.reg1], d.immediate)) == Some(ci)
    ensures Complete(m, d).Continue? && WellFormed(Complete(m, d).next, ci)
    ensures Halted(Complete(m, d).next, ci)
  {
    StoreStepHalts(m.clients, ci, Addi(m.regs[d.reg1], d.immediate), m.regs[d.reg2], d.funct3);
    CompleteInvariants(m, d, ci);
  }

  /** The memory stage of such a store: it passes, and the controller it
      reaches has its halt flag set */
  lemma StoreStepHalts(clients: seq<Client>, ci: nat, addr: u64, value: u64, funct3: nat)
    requires ci < |clients| && clients[ci].Control? && (funct3 == 0 || funct3 == 2)
    requires addr == SysControl.HaltAddress(clients[ci].controller) && FirstOwner(clients, addr) == Some(ci)
    ensures StoreStep(clients, addr, value, funct3).1 == Pass
    ensures var cs := StoreStep(clients, addr, value, funct3).0;
      ci < |cs| && cs[ci].Control? && cs[ci].controller.shouldHalt
  {
    var width: Width := StoreWidth(funct3);
    var grown := clients + [Ram(StoreRegion(addr, width))];
    AddClientKeepsPriority(clients, Ram(StoreRegion(addr, width)), addr);
    assert grown[ci] == clients[ci];
    Pow2Monotone(0, 8 * (width as nat));
    var v := value % Pow2(8 * width);
    assert BusWrite(grown, addr, width, v).Ok?;
  }


  /** A cycle that continues into a halted machine ends the run
      successfully at the next poll */
  lemma HaltedNextEndsRun(m: Machine, ci: nat, step: Machine -> Step, fuel: nat)
    requires WellFormed(m, ci) && KeepsWellFormed(step, ci) && !Halted(m, ci) && fuel >= 2
    requires step(m).Continue? && WellFormed(step(m).next, ci) && Halted(step(m).next, ci)
    ensures RunSpec(m, ci, step, fuel) == (Finished(true), step(m).next)
  {
    RunSpecStep(m, ci, step, fuel);
    RunSpecStep(step(m).next, ci, step, fuel - 1);
  }

  // ---------------------------------------------------------------------
  // The processor
  // ---------------------------------------------------------------------

  class Processor {
    var pc: u64
    var nCycles: int
    var nInstructions: int
    var instruction: u32
    var decoded: DecodedInstruction
    const decoder: InstructionDecoder
    const regfile: RegisterFile
    const alu: ALU
    const bus: MemoryBus
    /** Where on the bus the system controller sits */
    const controlIndex: nat

    ghost predicate Valid()
      reads this, bus
    {
      && regfile.Valid()
      && controlIndex < |bus.clients| && bus.clients[controlIndex].Control?
    }

    /** The machine this processor holds */
    ghost function State(): Machine
      reads this, regfile, regfile.registers, bus
    {
      Machine(pc, regfile.Contents(), bus.clients, nCycles, nInstructions)
    }

    /** Starts at the image's entry point with the image's regions on the
        bus, then the serial port at 0x200 and the system controller at 0x270 */
    constructor (entry: u64, regions: seq<Memory.Region>)
      ensures Valid() && fresh(regfile) && fresh(regfile.registers) && fresh(bus) && fresh(alu) && fresh(decoder)
      ensures controlIndex == |regions| + 1
      ensures State() == Machine(entry, seq(NumRegs, i => 0),
        seq(|regions|, i requires 0 <= i < |regions| => Ram(regions[i]))
          + [SerialPort(Serial.NewPort(0x200)), Control(SysControl.NewController(0x270))], 0, 0)
    {
      nCycles, nInstructions := 0, 0;
      pc := entry;
      controlIndex := |regions| + 1;
      instruction := 0;
      decoded := DecodedInstruction(0, 0, 0, 0, 0, 0, 0, 0);
      decoder := new InstructionDecoder();
      regfile := new RegisterFile();
      alu := new ALU();
      bus := new MemoryBus(seq(|regions|, i requires 0 <= i < |regions| => Ram(regions[i])));
      new;
      bus.AddClient(SerialPort(Serial.NewPort(0x200)));
      bus.AddClient(Control(SysControl.NewController(0x270)));
    }

    /** `initRegister`: a register write from the command line */
    method InitRegister(regnum: RegNumber, value: u64) returns (o: Outcome)
      requires Valid()
      modifies regfile.registers
      ensures Valid()
      ensures regnum >= NumRegs <==> o == Fail(RegisterOutOfRange(regnum))
      ensures regfile.Contents() == if 0 < regnum < NumRegs then old(regfile.Contents())[regnum := value] else old(regfile.Contents())
    {
      o := regfile.WriteRegister(regnum, value);
    }

    /** `getRegister` */
    method GetRegister(regnum: RegNumber) returns (r: Result<u64>)
      requires Valid()
      ensures regnum >= NumRegs <==> r == Err(RegisterOutOfRange(regnum))
      ensures regnum < NumRegs ==> r == Ok(regfile.Contents()[regnum])
    {
      r := regfile.ReadRegister(regnum);
    }

    /** Whether the system controller has been asked to halt */
    method ShouldHalt() returns (b: bool)
      requires Valid()
      ensures b == Halted(State(), controlIndex)
    {
      b := bus.clients[controlIndex].controller.shouldHalt;
    }

    /** `run`: the main loop, given fuel iterations */
    method Run(testMode: bool, fuel: nat) returns (r: RunResult)
      requires Valid()
      modifies this, regfile.registers, bus, alu, decoder
      ensures Valid() && KeepsWellFormed(CycleOf(testMode), controlIndex)
      ensures (r, State()) == RunSpec(old(State()), controlIndex, CycleOf(testMode), fuel)
    {
      CycleOfKeeps(controlIndex, testMode);
      ghost var outcome := RunSpec(State(), controlIndex, CycleOf(testMode), fuel);
      var left: nat := fuel;
      while left > 0
        invariant Valid() && left <= fuel
        invariant WellFormed(State(), controlIndex)
        invariant outcome == RunSpec(State(), controlIndex, CycleOf(testMode), left)
        decreases left
      {
        left := left - 1;
        var stop := Turn(testMode, left);
        if stop.Some? {
          return stop.value;
        }
      }
      return OutOfFuel;
    }

    /** One turn of the loop: the halt check, then the loop body */
    method Turn(testMode: bool, ghost left: nat) returns (stop: Option<RunResult>)
      requires Valid() && WellFormed(State(), controlIndex) && KeepsWellFormed(CycleOf(testMode), controlIndex)
      modifies this, regfile.registers, bus, alu, decoder
      ensures Valid()
      ensures stop.Some? ==> (stop.value, State()) == RunSpec(old(State()), controlIndex, CycleOf(testMode), left + 1)
      ensures stop.None? ==> WellFormed(State(), controlIndex)
      ensures stop.None? ==> RunSpec(old(State()), controlIndex, CycleOf(testMode), left + 1) == RunSpec(State(), controlIndex, CycleOf(testMode), left)
    {
      ghost var before := State();
      var halt := ShouldHalt();
      if halt {
        return Some(Finished(true));
      }
      PollStep(before, controlIndex, CycleOf(testMode), left);
      stop := Iterate(testMode);
      IterationStep(before, controlIndex, CycleOf(testMode), left);
    }

    /** One pass through the loop body after the halt check: each stage
        first counts a cycle; a fetch failure, an undefined instruction or a
        memory fault ends the run */
    method Iterate(testMode: bool) returns (stop: Option<RunResult>)
      requires Valid()
      modifies this, regfile.registers, bus, alu, decoder
      ensures Valid()
      ensures CycleOf(testMode)(old(State())) == if stop.Some? then Stop(stop.value, State()) else Continue(State())
    {
      ghost var before := State();
      assert CycleOf(testMode)(before) == Cycle(before, testMode);
      nCycles := nCycles + 1;
      var fetched := InstructionFetch();
      if fetched.Fail? {
        CycleFetchFails(before, testMode);
        return Some(Finished(testMode));
      }

      ghost var mid := State().(nCycles := nCycles + 1);
      CycleFetched(before, testMode, instruction, mid);
      stop := DecodeAndFinish();
    }

    /** The decode stage and the stages after it; an undefined instruction
        ends the run */
    method DecodeAndFinish() returns (stop: Option<RunResult>)
      requires Valid()
      modifies this, regfile.registers, bus, alu, decoder
      ensures Valid()
      ensures IsInt(Decode(old(instruction)).immediate)
      ensures Complete(old(State()).(nCycles := old(nCycles) + 1), Decode(old(instruction)))
        == if stop.Some? then Stop(stop.value, State()) else Continue(State())
    {
      DecodedImmediateIsInt(instruction);
      nCycles := nCycles + 1;
      InstructionDecode();
      if !Defined(decoded) {
        return Some(Undefined);
      }
      stop := Finish();
    }

    /** The stages after decode: execute, memory and write-back */
    method Finish() returns (stop: Option<RunResult>)
      requires Valid() && IsInt(decoded.immediate) && Defined(decoded)
      modifies this, regfile.registers, bus, alu
      ensures Valid()
      ensures Complete(old(State()), old(decoded)) == if stop.Some? then Stop(stop.value, State()) else Continue(State())
    {
      ghost var mid := State();
      nCycles := nCycles + 1;
      Execute();
      ghost var e := ExecResult(alu.result, pc);
      ghost var regs, clients := regfile.Contents(), bus.clients;
      stop := MemoryAndWriteBack();
      CompleteOf(mid, decoded, e, MemoryStep(decoded, regs, e.result, clients));
    }

    /** The memory and write-back stages, each counting a cycle; a memory
        fault ends the run before write-back */
    method MemoryAndWriteBack() returns (stop: Option<RunResult>)
      requires Valid() && IsInt(decoded.immediate) && Defined(decoded)
      modifies this, regfile.registers, bus, alu
      ensures Valid() && pc == old(pc) && decoded == old(decoded)
      ensures var mr := MemoryStep(decoded, old(regfile.Contents()), old(alu.result), old(bus.clients));
        if mr.outcome.Fail? then
          stop == Some(Finished(false))
          && State() == Machine(pc, old(regfile.Contents()), mr.clients, old(nCycles) + 1, old(nInstructions))
        else
          stop == None
          && State() == Machine(pc, if decoded.reg0 != 0 then old(regfile.Contents())[decoded.reg0 := mr.result] else old(regfile.Contents()),
            mr.clients, old(nCycles) + 2, old(nInstructions) + 1)
    {
      nCycles := nCycles + 1;
      var o := MemoryStage();
      if o.Fail? {
        return Some(Finished(false));
      }

      nCycles := nCycles + 1;
      WriteBack();
      nInstructions := nInstructions + 1;
      return None;
    }

    /** `instructionFetch`: reads the word at pc and moves pc past it; any
        bus fault becomes a fetch failure */
    method InstructionFetch() returns (o: Outcome)
      modifies this
      ensures match Fetch(bus.clients, old(pc))
        case Ok(w) => o == Pass && instruction == w && pc == NextPc(old(pc))
        case Err(f) => o == Fail(f) && instruction == old(instruction) && pc == old(pc)
      ensures nCycles == old(nCycles) && nInstructions == old(nInstructions) && decoded == old(decoded)
    {
      var r := bus.Read(pc, 4);
      if r.Err? {
        return Fail(InstructionFetchFailure(pc));
      }
      FetchFits(bus.clients, pc);
      instruction := r.value;
      pc := NextPc(pc);
      return Pass;
    }

    /** `instructionDecode`: the decoded instruction cache */
    method InstructionDecode()
      modifies this, decoder
      ensures decoded == Decode(instruction)
      ensures pc == old(pc) && instruction == old(instruction)
      ensures nCycles == old(nCycles) && nInstructions == old(nInstructions)
    {
      decoder.DecodeInstruction(instruction);
      decoded := decoder.decoded;
    }

    /** `execute`: clears the ALU, then executes with the already advanced pc */
    method Execute()
      requires Valid() && IsInt(decoded.immediate) && Defined(decoded)
      modifies this, alu
      ensures decoded == old(decoded) && instruction == old(instruction)
      ensures ExecResult(alu.result, pc) == ExecuteStep(decoded, regfile.Contents(), 0, old(pc))
      ensures nCycles == old(nCycles) && nInstructions == old(nInstructions)
    {
      alu.Clear();
      pc := alu.Execute(decoded, regfile, pc);
    }

    /** `memory`: the ALU's memory controller over the bus */
    method MemoryStage() returns (o: Outcome)
      requires Valid() && IsInt(decoded.immediate) && Defined(decoded)
      modifies alu, bus
      ensures MemResult(alu.result, bus.clients, o) == MemoryStep(decoded, regfile.Contents(), old(alu.result), old(bus.clients))
    {
      o := alu.MemoryController(decoded, regfile, bus);
    }

    /** `writeBack`: the result goes to rd unless rd is x0 */
    method WriteBack()
      requires Valid()
      modifies regfile.registers
      ensures regfile.Contents() == if decoded.reg0 != 0 then old(regfile.Contents())[decoded.reg0 := alu.result] else old(regfile.Contents())
    {
      if decoded.reg0 != 0 {
        var _ := regfile.WriteRegister(decoded.reg0, alu.result);
      }
    }
  }
}

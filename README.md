# rv64-emu core, modelled in Dafny

This project models the core of rv64-emu, a small emulator for 64-bit RISC-V
(RV64) programs.

- **Loading and setup.** The emulator loads a statically linked executable
  from an ELF file. Each allocated section becomes a memory region. The
  processor puts those regions on a memory bus, followed by a serial port at
  0x200 and a system controller at 0x270.
- **The instruction loop.** Each turn runs five stages: fetch, decode,
  execute, memory and write-back. A turn counts one cycle per stage it
  reaches.
- **Ending a run.** The program stops by storing to the controller's halt
  register. In test mode, a failing instruction fetch also ends the run
  successfully.
- **Configuration.** A small INI-style configuration reader is part of the
  core too.

## How the program is modelled

- **Integers.** Integers are unbounded in Dafny, so the model writes the
  machine's widths out explicitly:
  - `u64`, `u32` and `byte` are subset types;
  - 64-bit wrap-around is written `% W64`;
  - the C++ `int` range is checked by `IsInt`.
- **Values.** Regions, the serial port and the system controller are
  `datatype` values. Each has pure `Read` and `Write` functions that return a
  `Result`; an error result carries the fault the source throws.
- **Objects updated in place** are classes, whose methods carry `modifies`
  clauses and are proved against specification functions:
  - the register file (`array` of 31 registers);
  - the instruction decoder;
  - the memory bus (`seq` of clients);
  - the ALU;
  - the processor;
  - the configuration reader.
- **The decoder** works on 32-entry bit sequences, copied field by field the
  way the source copies `std::bitset` bits. It is proved equal to an
  arithmetic decoding function, `Decoder.Decode`. Encoders for every format
  give round-trip lemmas.
- **The run loop** is `Processor.RunSpec`. It iterates one cycle function
  over a machine state: pc, registers, bus clients and the two counters. The
  loop carries a fuel bound.
- **Branches.** Offsets keep the source's arithmetic:
  - `call` adds `4 * imm - 4` to a pc that already points past the branch;
  - the decoder halves a negative SB offset twice but a positive one only
    once;
  - so a taken forward branch moves twice its encoded offset
    (`Alu.BranchForward`);
  - a taken backward branch moves exactly its offset when the offset is a
    multiple of 4 (`Alu.BranchBackward`). Otherwise the decoder's rounding
    down makes it move two bytes further back: an encoded -2 moves -4 and -6
    moves -8 (`Alu.BranchBackwardOvershoot`).

## Model

| member | source | states |
|---|---|---|
| Decoder.InstructionDecoder.constructor | src/inst-decoder.h:46-54 | A fresh decoder holds the all-zero decoded instruction |
| Decoder.InstructionDecoder.DecodeInstruction | src/inst-decoder.cc:20-199 | The bit-by-bit decoding leaves exactly `Decode(instruction)` in the decoder |
| Decoder.InstructionDecoder.GetDecodedInstruction | src/inst-decoder.cc:202-205 | Returns the instruction last decoded |
| Decoder.DecodeCases | src/inst-decoder.cc:37-198 | For each format (I with loads, S, R, SB, U, UJ), names the fields `Decode` takes; every field of an unhandled opcode is zero |
| Decoder.CopyBits | src/inst-decoder.cc:46-53 | A bit-copy loop writes the chosen source bits at the destination offset and leaves every other bit alone |
| Decoder.DecodeOpcode | src/inst-decoder.cc:37-39 | The opcode is bits 0-6 of the word |
| Decoder.DecodeIFormat | src/inst-decoder.cc:44-64 | rd, funct3 and rs1 come from their fields; the 12-bit immediate is sign-corrected by two's complement when bit 11 is set |
| Decoder.DecodeSFormat | src/inst-decoder.cc:69-95 | funct3, rs1 and rs2 come from their fields; the split immediate is reassembled and sign-corrected |
| Decoder.DecodeRFormat | src/inst-decoder.cc:97-111 | rd, funct3, rs1, rs2, funct2 and funct5 come from their fields |
| Decoder.DecodeSBFormat | src/inst-decoder.cc:116-144 | The branch offset's bits are gathered; a negative one is complemented, shifted right and incremented |
| Decoder.DecodeUFormat | src/inst-decoder.cc:149-155 | rd and the upper 20 bits are taken unchanged |
| Decoder.DecodeUJFormat | src/inst-decoder.cc:160-184 | The jump offset's bits are gathered and halved, a negative one by complement, shift and increment |
| Decoder.Negate12 | src/inst-decoder.cc:56-63 | Complementing 12 bits and adding one yields 0x1000 minus the field |
| Decoder.NegateHalve12 | src/inst-decoder.cc:135-143 | Complement, shift right and increment yields (0xfff - field) / 2 + 1 |
| Decoder.NegateHalve20 | src/inst-decoder.cc:175-181 | The 20-bit complement, shift and increment yields (0xfffff - field) / 2 + 1 |
| Decoder.Assemble | src/inst-decoder.cc:188-198 | The register fields, signed immediate and function fields are stored as integers |
| Encoding.DecodeEncodeI | src/inst-decoder.cc:44-64 | Decoding an I-type word returns its opcode, rd, funct3, rs1 and any immediate in [-2048, 2048) |
| Encoding.DecodeEncodeS | src/inst-decoder.cc:69-95 | Decoding a store word returns its funct3, rs1, rs2 and any immediate in [-2048, 2048) |
| Encoding.DecodeEncodeR | src/inst-decoder.cc:97-111 | Decoding an R-type word returns all six of its fields |
| Encoding.DecodeEncodeB | src/inst-decoder.cc:116-144 | Decoding a branch word returns off/2 for a non-negative offset but off/4 for a negative one |
| Encoding.DecodeEncodeU | src/inst-decoder.cc:149-155 | Decoding lui returns rd and the 20-bit immediate |
| Encoding.DecodeEncodeJ | src/inst-decoder.cc:160-184 | Decoding jal returns rd and the offset divided by four |
| Encoding.DecodeOpcodeBits | src/inst-decoder.cc:37-39 | The decoded opcode is the word's low 7 bits; for an unhandled opcode nothing else is set |
| Encoding.SignBitOfFields | src/inst-decoder.cc:56 | The sign tests of the immediate fields are the word's bit 31 |
| Encoding.DecodeImmediateRange | src/inst-decoder.cc:56-194 | The range of the decoded immediate for each format; R-type and unhandled opcodes give 0 |
| RegFile.RegisterFile.constructor | src/reg-file.h:21-26 | All 32 registers start at zero |
| RegFile.RegisterFile.ReadRegister | src/reg-file.h:28-35 | Faults exactly for numbers of 32 and above; otherwise returns the register, and x0 reads as 0 |
| RegFile.RegisterFile.WriteRegister | src/reg-file.h:37-45 | Faults exactly for numbers of 32 and above; a write to x0 is dropped, and any other write changes only its register |
| RegFile.RegisterFile.CheckRegNumber | src/reg-file.h:50-58 | Accepts exactly the register numbers below 32 |
| Memory.ReadData | src/memory.cc:35-45 | Succeeds iff the bytes lie inside the region; the value is the little-endian reading of those bytes, else IllegalAccess(addr, size) |
| Memory.WriteData | src/memory.cc:72-81 | Succeeds iff the bytes lie inside a writable region; they then hold the value, and every other byte and the region's identity are unchanged |
| Memory.ContainsRange | src/memory.cc:107-111 | Where the end does not wrap, the region contains [base, base + size) |
| Memory.ContainsIsNotAccess | src/memory.cc:107-127 | An address the region contains may still refuse an access that runs past its end |
| Memory.NewRegionRefusesWrites | src/memory.cc:12-18 | A new region refuses every write |
| Memory.SetMayWriteAllowsWrites | src/memory.cc:25-29 | After writes are allowed, every in-range write succeeds |
| Memory.ReadAfterWrite | src/memory.cc:35-81 | A read of the bytes just written returns the value written |
| Memory.ReadAfterWriteElsewhere | src/memory.cc:35-81 | A write does not change a read of bytes that do not overlap it |
| Memory.LeRoundTrip | src/memory.cc:44 | Little-endian bytes of a value read back as that value |
| Memory.CanAccessAgrees | src/memory.cc:117-127 | Where no sum wraps, the access check as written equals the intended one |
| Memory.CanAccessAsWrittenOverflows | src/memory.cc:117-127 | An 8-byte read two bytes before the top of the address space passes the check as written although it runs past the region |
| Serial.NewPort | src/serial.cc:10-13 | A new port sits at its base with nothing output |
| Serial.Read | src/serial.cc:23-45 | Every read fails with "Not supported on serial interface" |
| Serial.Write | src/serial.cc:48-73 | Only a byte write to the base succeeds and appends the byte to the output; other byte writes and all wider writes fail with their messages |
| Serial.ContainsExactlyBase | src/serial.cc:75-79 | The port contains exactly its base address |
| Serial.WriteString | src/serial.cc:48-55 | Writing bytes one by one to the base outputs them in order |
| SysControl.NewController | src/sys-control.cc:10-13 | A new controller does not ask to halt |
| SysControl.HaltAddress | src/sys-control.cc:48-72 | The halt register is at base + 8 |
| SysControl.Read | src/sys-control.cc:23-45 | Every read fails with "Not supported on syscontrol interface" |
| SysControl.Write | src/sys-control.cc:48-78 | A byte or word write to the halt register sets the halt flag and succeeds; others at other addresses or of other widths fail with their messages |
| SysControl.HaltIsSticky | src/sys-control.cc:48-78 | Once set, no write clears the halt flag |
| SysControl.ContainsRange | src/sys-control.cc:80-84 | The controller covers 16 bytes from its base, the halt register included |
| Interconnect.FirstOwner | src/memory-bus.cc:80-88 | The first client in bus order containing the address, or none when no client contains it |
| Interconnect.ClientWrite | src/memory-interface.h:26-31 | A successful write to a client keeps the address range it answers for |
| Interconnect.BusWrite | src/memory-bus.cc:47-69 | An unclaimed address faults with IllegalAccess; a success changes only the owning client, which keeps its range |
| Interconnect.SameRangeContains | src/memory-bus.cc:80-88 | Clients of the same range contain the same addresses |
| Interconnect.MemoryBus.constructor | src/memory-bus.cc:8-11 | The bus starts with the given clients, in order |
| Interconnect.MemoryBus.AddClient | src/memory-bus.cc:17-21 | A client is appended after all present ones |
| Interconnect.MemoryBus.FindClient | src/memory-bus.cc:80-88 | The linear search returns exactly `FirstOwner` |
| Interconnect.MemoryBus.GetClient | src/memory-bus.cc:90-98 | The owner's index, or IllegalAccess(addr) when there is none |
| Interconnect.MemoryBus.Read | src/memory-bus.cc:23-45 | A sized read is the owner's read |
| Interconnect.MemoryBus.Write | src/memory-bus.cc:47-69 | A sized write updates the bus exactly as `BusWrite`, or leaves it unchanged on a fault |
| Interconnect.MemoryBus.Contains | src/memory-bus.cc:71-75 | The bus claims every address |
| Interconnect.AddClientKeepsPriority | src/memory-bus.cc:17-21 | An added client only takes addresses no earlier client claims |
| Interconnect.SameRangesSameOwner | src/memory-bus.cc:80-88 | Buses whose clients pair up by range route every address alike |
| Interconnect.BusWriteKeepsRouting | src/memory-bus.cc:47-88 | A write never changes which client owns an address |
| Interconnect.BusReadAfterWrite | src/memory-bus.cc:23-69 | Writing to memory through the bus and reading back returns the value |
| Alu.Addi | src/alu.cc:170-176 | Addition modulo 2^64 |
| Alu.Sll | src/alu.cc:178-185 | A left shift multiplies by 2^imm modulo 2^64; a shift of 64 or more gives 0 |
| Alu.Srl | src/alu.cc:187-194 | A logical right shift divides by 2^imm; a shift of 64 or more gives 0 |
| Alu.Andi | src/alu.cc:202-210 | Each of the 64 result bits is set iff that bit is set in both rs1 and the sign-extended immediate; so the result is at most each operand |
| Alu.Call | src/alu.cc:243-247 | pc moves by 4 * imm - 4, modulo 2^64 |
| Alu.StoreWidth | src/alu.cc:261-270 | funct3 0 to 3 select 1, 2, 4 and 8 bytes |
| Alu.LoadWidth | src/alu.cc:294-305 | funct3 and funct3 + 4 select the same width |
| Alu.ALU.constructor | src/alu.h:23-60 | A new ALU holds result 0 and flag 0 |
| Alu.ALU.Clear | src/alu.cc:143-148 | Result and flag become 0 |
| Alu.ALU.ExecuteOpImm | src/alu.cc:40-66 | The OP-IMM result is `OpImmResult` (li, mv, addi, slli, srli, andi); the flag is kept |
| Alu.ALU.Execute | src/alu.cc:23-115 | Result and new pc are `ExecuteStep` of the instruction, registers and pc |
| Alu.ALU.MemoryController | src/alu.cc:117-138 | Result, bus and outcome are `MemoryStep`: stores and loads at rs1 + imm, nothing for other opcodes |
| Alu.ALU.Store | src/alu.cc:258-292 | The bus and outcome are `StoreStep`: a fresh writable region at the address is appended, then the sized write is routed |
| Alu.ALU.Load | src/alu.cc:294-305 | The result and outcome are `LoadStep`: a sized read, kept unchanged on a fault |
| Alu.BranchStep | src/alu.cc:76-97 | A branch keeps the result and moves pc by `Call` exactly when its comparison holds |
| Alu.BranchForward | src/alu.cc:215-247 | A taken forward branch with encoded offset off lands at fetch + 2 * off |
| Alu.BranchBackward | src/alu.cc:215-247 | A taken backward branch with immediate k lands at fetch + 4 * k, its encoded offset when that is a multiple of 4 |
| Alu.BranchBackwardOvershoot | src/alu.cc:215-247 | A taken backward branch with any even encoded offset off lands at fetch + off when off is a multiple of 4, and at fetch + off - 2 otherwise |
| Alu.JalLinksAndJumps | src/alu.cc:110-114 | jal links the next pc and lands at fetch + 4 * imm |
| Alu.JalrIgnoresOffset | src/alu.cc:68-71 | jalr jumps to rs1 and ignores the immediate and the link |
| Alu.OpImmStep | src/alu.cc:40-66 | addi adds, slli and srli shift, and andi sets each result bit to the AND of the bits of rs1 and the sign-extended immediate; other funct3 leave the result |
| Alu.RTypeAddSub | src/alu.cc:29-38 | funct5 0 adds and 8 subtracts modulo 2^64; funct3 is ignored |
| Alu.LuiShiftsImmediate | src/alu.cc:102-105 | lui puts imm * 4096 in the result |
| Alu.UnhandledLeavesState | src/alu.cc:23-115 | Other opcodes change neither result nor pc |
| Alu.StoreAddsOneClient | src/alu.cc:272-282 | Each store appends exactly one region at the address, and earlier clients keep their ranges |
| Alu.StoreThenLoad | src/alu.cc:258-305 | Where the owner is memory, a successful store is read back truncated to its width |
| Alu.StoreToUnclaimed | src/alu.cc:272-291 | A store to an unclaimed address succeeds into the region it creates |
| Alu.StoreToReadOnly | src/alu.cc:258-292 | A store to read-only memory still appends its region, then faults |
| Alu.LoadZeroExtends | src/alu.cc:294-305 | A load result fits its width; a failed load leaves the result |
| Processor.Fetch | src/processor.cc:137-149 | The word at pc, or InstructionFetchFailure(pc) when the bus read fails |
| Processor.CycleFetchFails | src/processor.cc:95-117 | A failed fetch stops with the test-mode verdict after one cycle |
| Processor.CycleFetched | src/processor.cc:95-112 | A fetched word advances pc by 4 and continues with its decoding |
| Processor.CompleteOf | src/processor.cc:103-131 | A memory fault stops with failure; otherwise rd gets the result unless it is x0, and an instruction is counted |
| Processor.CycleInvariants | src/processor.cc:91-131 | One iteration keeps the machine well formed and the halt flag set; 5 cycles per instruction, at most 4 for a stop, success only in test mode |
| Processor.CycleOfKeeps | src/processor.cc:91-131 | The cycle keeps well-formedness and the cycle accounting |
| Processor.RunSpecStep | src/processor.cc:91-132 | The loop tests the halt flag before each iteration |
| Processor.RunStopsWhenHalted | src/processor.cc:91-134 | A halted machine finishes successfully without running |
| Processor.FetchFailureEndsRun | src/processor.cc:114-117 | A failed fetch ends the run with the test-mode verdict |
| Processor.RunInvariants | src/processor.cc:88-135 | Over a run: registers and controller kept, halt sticky, 5 cycles per instruction plus at most 4, success outside test mode only when halted |
| Processor.StoreToHaltAddressHalts | src/processor.cc:91-110 | A byte or word store to the controller's halt register sets its halt flag |
| Processor.StoreStepHalts | src/alu.cc:258-292 | The store stage routes a halt-register store to the controller |
| Processor.HaltedNextEndsRun | src/processor.cc:91-134 | After the instruction that sets the halt flag, the run finishes successfully |
| Processor.BusWriteKeepsHalt | src/sys-control.cc:48-78 | A bus write leaves the controller in place and never clears its halt flag |
| Processor.MemoryStepKeepsControl | src/alu.cc:117-138 | The memory stage keeps the controller at its index and its halt flag set |
| Processor.Processor.constructor | src/processor.cc:50-57 | pc is the entry point; the bus holds the regions, then the serial port at 0x200, then the controller at 0x270 |
| Processor.Processor.InitRegister | src/processor.cc:62-66 | Writes the register file as `WriteRegister` does |
| Processor.Processor.GetRegister | src/processor.cc:68-72 | Reads the register file as `ReadRegister` does |
| Processor.Processor.ShouldHalt | src/processor.cc:91 | Reports the controller's halt flag |
| Processor.Processor.Run | src/processor.cc:88-135 | The run's verdict and final state are `RunSpec` of the initial state |
| Processor.Processor.Turn | src/processor.cc:91-132 | One loop iteration agrees with `RunSpec` with one unit of fuel less |
| Processor.Processor.Iterate | src/processor.cc:93-131 | The five stages together perform `CycleOf` |
| Processor.Processor.InstructionFetch | src/processor.cc:137-149 | Loads the word at pc and advances pc by 4, or fails with pc unchanged |
| Processor.Processor.InstructionDecode | src/processor.cc:154-179 | The decoded instruction is `Decode(instruction)` |
| Processor.Processor.Execute | src/processor.cc:183-188 | The ALU is cleared and then computes `ExecuteStep` |
| Processor.Processor.MemoryStage | src/processor.cc:192-203 | The ALU's memory controller computes `MemoryStep` |
| Processor.Processor.WriteBack | src/processor.cc:207-212 | rd gets the ALU result unless it is x0 |
| Processor.Processor.MemoryAndWriteBack | src/processor.cc:106-112 | Memory then write-back: a fault stops with failure, else the instruction is counted |
| Elf.ReadWriteFields | src/elf.h:316-331 | Little-endian fields written and read back give the same values |
| Elf.WriteReadFields | src/elf.h:316-331 | Bytes read as fields and written back are unchanged |
| Elf.ReadWriteHeader | src/elf.h:316-331 | An Elf64_Ehdr written and read back is unchanged |
| Elf.WriteReadHeader | src/elf.h:316-331 | A header's 64 bytes are exactly what writing the header read from them gives |
| Elf.ReadWriteSection | src/elf.h:347-358 | An Elf64_Shdr written at any offset reads back unchanged |
| Elf.SectionTable | src/elf-file.cc:135-139 | The table has e_shnum entries |
| Elf.EntrypointOfWritten | src/elf-file.cc:182-187 | The entry point is the header's e_entry |
| Elf.RiscvExecutableAccepted | src/elf-file.cc:88-128 | A 64-bit little-endian RISC-V executable passes `isELF` and `isTarget` iff it has a program header |
| Elf.ForeignExecutableAccepted | src/elf-file.cc:118-121 | An executable for another machine passes when its version is current |
| Elf.ForeignOldExecutableRefused | src/elf-file.cc:118-121 | Only a wrong machine together with an old version is refused |
| Elf.RegionOf | src/elf-file.cc:141-175 | An allocated section's region: sh_size bytes at sh_addr, from the file or zero, named by SHF_EXECINSTR, writable by SHF_WRITE |
| Elf.SectionMemory | src/elf-file.cc:143-175 | The loop body builds `RegionOf` the section |
| Elf.CreateMemories | src/elf-file.cc:130-180 | The regions are `Regions` of the section table |
| Elf.RegionsFollowTable | src/elf-file.cc:139-177 | One region per allocated section, in table order |
| Elf.RegionsSnoc | src/elf-file.cc:139-177 | Each further section adds its region exactly when allocated |
| ConfigFile.Run | src/config-file.cc:45-46 | The longest run of one character class from a position |
| ConfigFile.SectionNameSound | src/config-file.cc:45 | A recognised header is `[name]` with an alphanumeric name and trailing blanks |
| ConfigFile.SectionNameComplete | src/config-file.cc:45 | Every such line is recognised, with its name |
| ConfigFile.GlobalIsNoSectionName | src/config-file.cc:20-45 | No header can name the global section |
| ConfigFile.ValueOfSound | src/config-file.cc:46 | A value is preceded by blanks, `=` and blanks, and is non-blank to the end |
| ConfigFile.ValueOfComplete | src/config-file.cc:46 | Every such text yields its value |
| ConfigFile.KeyValueSound | src/config-file.cc:46 | A recognised property line is a key starting with a letter, then the value text |
| ConfigFile.KeyValueLongest | src/config-file.cc:46 | The key is the longest non-blank prefix after which a value follows |
| ConfigFile.KeyValueComplete | src/config-file.cc:46 | Every key followed by a value text is recognised |
| ConfigFile.LookupOrdered | src/config-file.cc:119-121 | In an ordered map, each stored name finds its own value |
| ConfigFile.InsertProperties | src/config-file.cc:146-151 | Insertion keeps the map ordered, adds a new name, and never replaces an existing one |
| ConfigFile.LookupAbsent | src/config-file.cc:119-121 | A name below the smallest entry is absent |
| ConfigFile.LineStepConsistent | src/config-file.cc:57-95 | One line keeps sections distinct, the current one last and properties ordered |
| ConfigFile.ParseConsistent | src/config-file.cc:35-98 | Every state a load reaches is consistent |
| ConfigFile.SectionsAreHeaders | src/config-file.cc:38-74 | After a clean load, the sections are the global one then each header, in order |
| ConfigFile.ErrorPersists | src/config-file.cc:62-84 | The first error ends the load: later lines change nothing |
| ConfigFile.ParseSnoc | src/config-file.cc:57-95 | Loading one more line applies one step, unless an error already occurred |
| ConfigFile.RepeatedHeaderFails | src/config-file.cc:64-70 | A header repeated anywhere in the file makes the load fail |
| ConfigFile.HeaderListed | src/config-file.cc:72-73 | After a clean load, every header's section is listed |
| ConfigFile.PropertyStoredInCurrent | src/config-file.cc:76-87 | A new property is stored under the current section |
| ConfigFile.SameKeyInTwoSections | src/config-file.cc:35-98 | `a=1`, `[s]`, `a=2` load into two properties named a, one per section |
| ConfigFile.OtherLinesSkipped | src/config-file.cc:88-94 | Lines that are neither header nor property change nothing |
| ConfigFile.SelectMembers | src/config-file.cc:127-137 | The selection holds exactly the section's key-value pairs |
| ConfigFile.SelectAscending | src/config-file.cc:127-137 | The selection is in strictly ascending key order |
| ConfigFile.ConfigFile.constructor | src/config-file.cc:23-26 | A new reader is empty; followed by `Load(lines)` it is the reader `ConfigFile(filename)` builds |
| ConfigFile.ConfigFile.Clear | src/config-file.cc:28-33 | Sections and properties are emptied |
| ConfigFile.ConfigFile.AddSection | src/config-file.cc:140-144 | Appends the section |
| ConfigFile.ConfigFile.AddProperty | src/config-file.cc:146-151 | The map becomes `Insert` of the name and value, still ordered |
| ConfigFile.ConfigFile.HasSection | src/config-file.cc:101-107 | True iff the section is listed |
| ConfigFile.ConfigFile.GetSections | src/config-file.cc:109-113 | The sections, in the order declared |
| ConfigFile.ConfigFile.HasProperty | src/config-file.cc:115-122 | True iff the (section, key) name is in the map |
| ConfigFile.ConfigFile.GetProperties | src/config-file.cc:127-137 | Exactly the section's key-value pairs, in ascending key order |
| ConfigFile.ConfigFile.Load | src/config-file.cc:35-98 | The sections, properties and error are those of `Parse` over the lines |

## Left out

- File I/O is not modelled: opening, `fstat` and `mmap` of the executable, and reading the configuration file line by line.
  - An executable is given as its bytes, and a configuration file as its lines.
  - The failures of those calls (exceptions with their messages) are not modelled.
- Diagnostic output is not modelled: messages to the standard error stream, the debug-mode trace and its wait for Enter, and the instruction formatter.
- main.cc's command-line handling is not part of this model, and neither are the timing and cycles-per-instruction report, which uses floating point.
- Processor.Processor.Run: the source loops until the controller asks to halt; the model takes a fuel bound and returns `OutOfFuel` when it is spent.
- Processor.Complete gives the outcome `Undefined` to two instructions whose effect the source leaves undefined:
  - a store with funct3 above 3, where the store size is read uninitialised;
  - a lui whose immediate times 4096 overflows `int`.
  The ALU methods require these cases away.
- The system controller is reached through its index in the bus's client list, not through a second shared pointer. Aliasing between the processor's `control` and the bus entry is therefore not modelled.
- Region buffers are byte sequences inside the bus's client list. The alignment argument of `posix_memalign` has no counterpart.
- Memory.ReadData and Memory.WriteData use the corrected access check `CanAccess`, not the wrapping one the source has (see Findings). Memory.Contains keeps the source's wrapping sum.
- Byte order is little-endian throughout, as on the RISC-V hosts the emulator is built for. The source reads and writes host-order integers.
- Processor.Machine keeps `nCycles` and `nInstructions` as unbounded integers. The source's counters are `int` and are incremented without a bound, so after 2^31 - 1 cycles they overflow, which is undefined in C++. The model does not capture that overflow.
- ConfigFile.ConfigFile.constructor builds an empty reader. The source's `ConfigFile(filename)` loads the file in the constructor; the model writes this as the constructor followed by `Load(lines)`, so a duplicate is returned by `Load` and no exception leaves the constructor.
- ConfigFile.ConfigFile.Load returns the first duplicate as an error value instead of throwing. The message text with the file name is not modelled.
- The regular expressions of the configuration reader are written as character-class scanners. Blank means space, tab, newline, vertical tab, form feed or carriage return, in ASCII.
- Elf.CreateMemories requires an image whose header, section table and allocated SHT_PROGBITS contents lie inside the file (`Elf.Loadable`). The source reads past the mapping otherwise, which has no defined result.
- Decoder.InstructionDecoder.constructor and Alu.ALU.constructor start from zero. The source leaves the decoded instruction, the ALU's result and its flag uninitialised until first written.
- The ALU's operand registers A and B, their setters and `getFlag` are not modelled, because nothing in the core uses them. The flag is kept and never changed.
- The IllegalInstruction exception is not modelled, because no core code throws it.

## Findings

| source | as written | input that shows it | evidently intended | confidence | as-written member | corrected member |
|---|---|---|---|---|---|---|
| src/memory.cc:120 | `addr + size > base + this->size` is computed in 64 bits, so the sum wraps near the top of the address space | a 15-byte region at 0xFFFF_FFFF_FFFF_FFF0 and an 8-byte read at 0xFFFF_FFFF_FFFF_FFFE: addr + 8 wraps to 6 and the check passes, so the read runs 7 bytes past the buffer | an access is allowed only when all its bytes lie inside the region | not executed | Memory.CanAccessAsWrittenOverflows | Memory.ReadData |

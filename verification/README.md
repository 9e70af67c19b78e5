# A verified model of the rremu hart

rremu is a RISC-V emulator: one hart (`CPU`) on a bus (`MMU`) with RAM, and an ELF image builder. This
project models the hart bit for bit, as the C++ code has it, and proves what holds of every instruction,
every step and every run. `dafny verify dfyconfig.toml` checks it.

## How it is laid out

- `Words.dfy`: 64- and 32-bit words as numbers, with every wrap-around written out, and bitwise operators
  defined bit by bit.
- `Isa.dfy`, `Parsing.dfy`, `Decode.dfy`: the 96 table entries, the formats, an assembler, the source's mask
  and shift expressions, the scan of the table, and an independent decision tree.
- `Division.dfy`: the multiply and divide instructions. `Ram.dfy`, `Mmu.dfy`, `PageWalk.dfy`: memory, bus,
  page walk. `Traps.dfy`: causes.
- `HartModel.dfy`: one hart as a value; every operation of the `CPU` class as a function on it. `Step` is
  one `CPU::Step`, `Run` is the loop of `CPU::Run`.
- `Cpu.dfy`: the class with its registers, CSRs and pc updated in place; each method is proved to change
  the state as the function of `HartModel` does. `Ram.dfy` and `Mmu.dfy` hold the classes for the RAM and
  the bus in the same way.
- What a step does, stated without the functions of the model, by bits, numbers and bytes: `TrapEntry.dfy`
  (traps, returns, interrupts), `Accesses.dfy` (loads and stores), `Instructions.dfy` (the whole table),
  `Steps.dfy` (fetch to interrupt check, and runs). `OneOutcome.dfy` shows that these statements leave one
  outcome only, so the step of the model is the only one that satisfies them (`Steps.StepIsDetermined`).
- The theorems: `LazyZero.dfy` (x0), `TrapProperties.dfy` (precise exceptions, trap and return),
  `Drain.dfy` (interrupts), `Invariants.dfy` (reachable states), `Programs.dfy` (assembled instructions),
  `Conformance.dfy` (what the executors compute), `Departures.dfy` (executors that do not follow the ISA
  manual, with the exact condition under which they still give its result; `WordDepartures.dfy` for the W
  instructions, `Sv39Manual.dfy` for the page walk, `Levels.dfy` for interrupt priority and privilege levels),
  `Elf.dfy` (from file to memory).

## What is undefined

Where C++ gives the program no meaning, the model ends in a result of its own (`Lost`, `NoValue`,
`Crashed`) and claims nothing beyond: a shift by 64 or more, a register index outside the array, a
`memcpy` past the end of RAM, data that a stub device never wrote, and translation under Sv39, which
re-enters itself without end (`Mmu.ReentryNeverReturns`). Theorems about steps and runs cover all entries of
the table, the A extension included, and all privilege modes.

## What came out differently from the ISA manual

Each of these is proved with its exact condition, or with the value the code gives:

- x0 is cleared at the start of a step instead of being hardwired. The two machines can differ only on JALR
  with rd = rs1 = x0 and on four AMO entries with rd = rs2 = x0, and do so when the value read back matters:
  JALR, from an even pc, whenever its link is not 0 (`LazyZero.JalrReadsBackFromEven`), the AMO entries when rs1 is
  not x0 and does not hold 0 (`LazyZero.LazyZeroStep`).
- JAL reaches its target exactly when the offset fits 20 bits (`Programs.JalLands`); JALR with rd = rs1
  uses the link value as its base (`Programs.JalrTargetFromEven`).
- The epc of an interrupt is the pc minus 4, so an interrupt and its return re-run an instruction
  (`Drain.InterruptResumesEarly`); a machine trap and MRET always come back in user mode
  (`TrapProperties.MachineTrapReturn`).
- An illegal instruction or a failed fetch leaves `Step` without reaching `HandleTrap`
  (`TrapProperties.EscapedExceptionIsNotDelivered`).
- SLT, SLTI, SLTIU, SRA, SRAI, SLLIW, SRLIW, SRAIW, XORI, ANDI, ORI, AUIPC, load and store offsets, MULH,
  MULHSU, MULHU and MRET: see `Departures`. ADDW, SUBW, MULW, SLLW, SRLW and SRAW: see `WordDepartures`.
  DIVUW and REMUW zero-extend their results (`Division.UnsignedDivisionIdentity32`).
- The old value of a CSR passes through 32 bits: rd loses its upper half in all six CSR instructions
  (`Departures.CsrReadMatches`), and CSRRS, CSRRC, CSRRSI and CSRRCI clear that of the CSR
  (`Departures.CsrrsSets`, `CsrrcClears`, `CsrNumberForms`).
- Interrupts come in the order of their numbers, and medeleg instead of mideleg chooses their level
  (`Levels.PriorityMatches`, `Levels.DelegationMatches`). SRET and MRET are executed in every mode
  (`Levels.StepLevel`).
- Setting bit 63 of satp stops the machine at the next fetch (`Invariants.ReachableStep`).
- The walk ignores bits 63..39 of the virtual address (`PageWalk.HighBitsIgnored`), and reaches the manual's
  tables and addresses only for some entries (`Sv39Manual.NextMatches`, `Sv39Manual.LeafMatches`).

The interrupt handlers are held in a `std::map`, so they are tried in ascending bit order and not in the
order in which the source lists them; the model follows the map.

## Model

| member | source | states |
|---|---|---|
| Words.OrOneBit | source/cpu.cpp:141-145 | setting a bit in the model is or-ing in `1 << i` as the source does |
| Words.AndNotOneBit | source/cpu.cpp:142-145 | clearing a bit in the model is the source's `x & ~(1 << i)` |
| Words.BitIsShift | source/cpu.cpp:140-141 | testing a bit in the model is the source's `(x >> i) & 1` |
| Words.EvenFloorIsPut | source/cpu.cpp:1403 | clearing bit 0 in the model is the source's `x & ~1` |
| Parsing.SlicesAreMasks | source/cpu.cpp:9-33 | the slices of a word are what the shift and `&` of `mask<start, end>` give |
| Parsing.ParseIsSource | source/cpu.cpp:49-127 | for all six formats and every word, parsing is the source's masks, shifts and `or` of the immediate's pieces |
| Isa.ParseOfPack | source/cpu.cpp:49-127 | parsing an assembled word gives back its fields, in all six formats and for all legal operands |
| Isa.PackOfParse | source/cpu.cpp:49-127 | every word is the assembly of the fields that a format parses from it |
| Decode.MatchesIsClassified | source/cpu.cpp:130-1325 | an entry matches a word exactly when the decision tree names it; only FENCE and FENCE.I overlap |
| Decode.DecodeIsClassify | source/cpu.cpp:1327-1337 | the scan of the 96 entries equals the decision tree over opcode, funct3 and funct7, for every word |
| Decode.EntriesAreDisjoint | source/cpu.cpp:130-1325 | no word matches two entries, except the word 0xf with the two fences |
| Decode.DecodeIgnoresOrder | source/cpu.cpp:1327-1337 | any reordering of the table decodes every word alike, up to the choice between the two fences |
| Decode.DecodeOfAssembled | source/cpu.cpp:49-1337 | an entry assembled with any legal operands decodes to that entry and parses to those operands |
| Decode.AssembledOfDecoded | source/cpu.cpp:49-1337 | a word that decodes to an entry is that entry assembled with the operands its format parses |
| Division.SignedDivisionIdentity | source/cpu.cpp:846-947 | MUL(DIV(a, b), b) + REM(a, b) = a modulo 2^64 for all operands, zero divisor and overflow included |
| Division.RemainderBound | source/cpu.cpp:925-947 | for b != 0 the remainder is smaller than the divisor and has the dividend's sign |
| Division.UnsignedDivisionIdentity | source/cpu.cpp:908-963 | the identity for DIVU and REMU, exact for b != 0 |
| Division.SignedDivisionIdentity32 | source/cpu.cpp:968-1039 | DIVW and REMW are sign-extended 32-bit values, and the identity holds in the low 32 bits for all operands |
| Division.UnsignedDivisionIdentity32 | source/cpu.cpp:1000-1055 | the identity in the low 32 bits for all operands, exact on the low halves for a nonzero divisor; the zero-extended quotient is the ISA's unless a number from 2^31 on is divided by 1, the remainder unless such a number is left over |
| Ram.LoadedByte | include/ram.h:37-49 | byte k of a loaded value is the byte at i + k, and there are no others |
| Ram.StoredByte | include/ram.h:60-72 | a store writes the bytes of the data to its range and leaves every other byte |
| Ram.LoadSameRange | include/ram.h:37-80 | a store and then a load of n bytes give the data modulo 2^(8n) |
| Ram.LoadAfterStore | include/ram.h:37-80 | a load of any width at any overlapping offset sees the written bytes inside the range and the old ones outside |
| Ram.LoadDisjoint | include/ram.h:37-80 | a store changes no load from a disjoint range |
| Ram.LoadSplit | include/ram.h:37-49 | a wide load is two adjacent narrower loads |
| Ram.StoreIsOneByOne | include/ram.h:60-72 | a wide store is as many one-byte stores |
| Ram.WideAccess | include/ram.h:37-80 | an 8-byte access is two 4-byte accesses |
| Ram.RAM.constructor | include/ram.h:17-20 | the memory is the image followed by zeros |
| Ram.RAM.Load | include/ram.h:37-58 | the byte-copy loop computes the little-endian value, or faults for a size that is not 1, 2, 4 or 8 |
| Ram.RAM.Store | include/ram.h:60-80 | the byte-copy loop changes the memory as StoreBytes says, or faults and changes nothing |
| Mmu.ReentryNeverReturns | source/mmu.cpp:103-166 | under Sv39 no load and no translation returns at any call depth, because the page-table read is itself translated |
| Mmu.OneLevelIsEnough | source/mmu.cpp:5-42 | in the other modes the re-entrant definition agrees with BusLoad |
| Mmu.DevicesAreDisjoint | include/config.h:14-35 | no physical address belongs to two devices, and an address outside all of them faults |
| Mmu.MMU.constructor | include/mmu.h:63-67 | paging starts as Bare, the root is unspecified, the RAM holds the image |
| Mmu.MMU.Translate | source/mmu.cpp:103-112 | the address itself in Bare mode, a page fault in the unsupported modes, no end under Sv39 |
| Mmu.MMU.Load | source/mmu.cpp:5-42 | dispatch to RAM or a device, or a load access fault |
| Mmu.MMU.Store | source/mmu.cpp:44-81 | dispatch to RAM or a device, or a store access fault; only the RAM bytes of the range change |
| PageWalk.EntryIsItsFields | source/mmu.cpp:83-100 | the parsed fields recompose the whole page-table entry |
| PageWalk.Translate | source/mmu.cpp:103-173 | the loop with its break, next-table step and faults computes the recursive walk, the read taken as physical |
| PageWalk.LeafIsInRam | source/mmu.cpp:127-150 | the entry behind a translated address is the last one read and lies in RAM; none is left over from a read that a device did not answer |
| TrapEntry.TrapEntered | source/cpu.cpp:1391-1439 | for every exception and interrupt: the level by the medeleg bit of the cause, and pc, epc, cause, tval, status bits and frame of that level |
| TrapEntry.InterruptsChecked | source/cpu.cpp:1441-1483 | the lowest bit of mie & mip & 0xAAA is delivered if and only if there is one and the enable bit of the mode is set (user mode: always); otherwise the state stays |
| TrapEntry.SretReturns | source/cpu.cpp:133-147 | SRET: pc from sepc, mode from SPP, every bit of sstatus, nothing else |
| TrapEntry.MretReturns | source/cpu.cpp:148-163 | MRET: pc from mepc, the mode for all four values of MPP, every bit of mstatus, nothing else |
| Accesses.LoadExecutes | source/cpu.cpp:291-355 | every load: by address the bytes of the register with sign or zero above, the trap 5, or no meaning |
| Accesses.StoreExecutes | source/cpu.cpp:356-391 | every store: by address every byte of memory afterwards, the trap 7, or no meaning |
| Accesses.LoadFaults | source/mmu.cpp:5-42 | in Bare mode a load throws if and only if its address is outside RAM and devices, or in the UART with more than one byte; always cause 5 |
| Accesses.StoreFaults | source/mmu.cpp:44-81 | the same for stores, with cause 7 |
| Instructions.ExecuteMeans | source/cpu.cpp:133-1324 | every entry on every word and state: the operands by the source's masks, the new value by bits, order, congruence or quotient, and the whole new state |
| OneOutcome.OneMeaning | source/cpu.cpp:133-1324 | that description admits one outcome |
| Steps.StepIsDetermined | source/cpu.cpp:1339-1361 | a step is exactly what fetch by bytes, the decision tree, the meaning of the instruction, the trap entry and the interrupt check say |
| Steps.RunIsMeant | source/cpu.cpp:1363-1376 | a run of n rounds is n such steps; after an escaped exception it goes on from the state in which it was thrown |
| Steps.TrapReturnSteps | source/cpu.cpp:1347-1419 | a delegated trap, any quiet run and a step that fetches SRET restore mode, pc and sstatus, before the interrupt check of that step |
| Steps.MachineReturnStep | source/cpu.cpp:1347-1438 | a machine trap and a step that fetches MRET: user mode at the trapped pc, MIE restored |
| Steps.LoadFaultTraps | source/cpu.cpp:1347-1361 | a step whose load faults traps with cause 5 at the pc of the instruction, to the level that medeleg chooses |
| Steps.StoreFaultTraps | source/cpu.cpp:1347-1361 | the same for stores, with cause 7 |
| Steps.ResetState | include/cpu.h:62-66 | after reset all registers and CSRs are 0, the mode is machine, paging is Bare |
| Elf.AcceptedFiles | source/elf_parser.cpp:42-61 | there is an image if and only if every PT_LOAD header passes the wrapped size checks and copies within image and file; rejected if and only if the first bad header fails a check |
| PageWalk.FirstEntryIsWalked | source/mmu.cpp:133-136 | the read at which the translation re-enters itself is the first one of the walk |
| Sv39Manual.LeafMatches | source/mmu.cpp:151-166 | a leaf gives the manual's result if and only if its frame is aligned and below 2^31, or below 2^21 for the smallest pages |
| Sv39Manual.LeafValue | source/mmu.cpp:151-166 | the address of every leaf: ppn1 and ppn2 dropped at level 0, above it two bits of ppn2, sign-extended |
| Sv39Manual.NextTableBits | source/mmu.cpp:149 | every bit of the next table of every entry; undefined from ppn0 = 128 on |
| Sv39Manual.NextMatches | source/mmu.cpp:149 | the next table is the manual's if and only if it lies on a 2 MiB boundary below 2^31 |
| Sv39Manual.TranslationIsMeant | source/mmu.cpp:103-166 | the walk of any address over any entries, unanswered reads included, decided by the bits of each entry |
| Sv39Manual.TranslationMatches | source/mmu.cpp:103-173 | for a canonical address and a walk over such entries only, the translation is the manual's |
| PageWalk.TranslationShape | source/mmu.cpp:117-166 | at most three reads, three minus the leaf's level on success; a level-i leaf keeps the low 12 + 9i bits of the address |
| PageWalk.LeafAddress | source/mmu.cpp:151-166 | the translated address is the entry's frame plus the offset within a page of that level |
| PageWalk.SamePage | source/mmu.cpp:133-166 | addresses that share the vpns of the leaf's level and above go to the same page, each at its own offset |
| PageWalk.HighBitsIgnored | source/mmu.cpp:119-125 | addresses that agree modulo 2^39 translate alike, with no fault for non-canonical ones |
| Elf.LoadSegments | source/elf_parser.cpp:42-61 | the segment loop builds the overlay of the accepted segments, or rejects where the size check or `at` throws |
| Elf.ImageSeenByHart | source/elf_parser.cpp:42-61 | a one-byte load on the hart gives the byte of the last segment whose file bytes cover the address, else 0 |
| Elf.FileByteIsUnique | source/elf_parser.cpp:48-59 | that description determines the byte |
| Cpu.CPU.constructor | include/cpu.h:62-66 | machine mode at the entry point, registers and CSRs zero, RAM from the image |
| Cpu.CPU.SetReg | include/cpu.h:88 | one register changes and nothing else |
| Cpu.CPU.SetCsr | include/cpu.h:91-98 | one CSR changes, and a write to satp also updates the paging fields |
| Cpu.CPU.UpdatePaging | source/cpu.cpp:1378-1389 | bit 63 selects Sv39 or Bare, bits 43..0 become the root; RAM is unchanged |
| Cpu.CPU.HandleTrap | source/cpu.cpp:1391-1439 | the in-place updates take the state where HartModel.HandleTrap does |
| Cpu.CPU.HandleInterrupts | source/cpu.cpp:1441-1483 | the loop delivers the lowest pending enabled interrupt or changes nothing |
| Cpu.CPU.ReturnFromSupervisor | source/cpu.cpp:133-147 | the SRET executor's pc, mode and three status writes |
| Cpu.CPU.ReturnFromMachine | source/cpu.cpp:148-163 | the MRET executor's pc, mode and three status writes |
| Cpu.CPU.Fetch | source/cpu.cpp:1339-1345 | the low 32 bits of a 4-byte load at the pc, which then advances; a fault leaves the pc |
| Cpu.CPU.Decode | source/cpu.cpp:1327-1337 | the loop returns the first matching entry, or throws |
| Cpu.CPU.ExecuteSystemOp | source/cpu.cpp:584-620 | SRET and MRET return, ECALL throws by mode, FENCE and EBREAK do nothing |
| Cpu.CPU.JumpAndLink | source/cpu.cpp:191-201 | rd gets the advanced pc, the pc moves by the extended immediate minus 4 |
| Cpu.CPU.JumpAndLinkRegister | source/cpu.cpp:202-212 | rd is written before rs1 is read; the target is even |
| Cpu.CPU.BranchIf | source/cpu.cpp:213-290 | a taken branch moves the pc, an untaken one changes nothing |
| Cpu.CPU.LoadInto | source/cpu.cpp:291-355 | rd gets the widened data, or the fault is thrown with nothing written |
| Cpu.CPU.StoreFrom | source/cpu.cpp:356-391 | only RAM changes, or the fault is thrown with nothing written |
| Cpu.CPU.Execute | source/cpu.cpp:133-1324 | every executor changes the state, or throws, as HartModel.Execute says |
| Cpu.CPU.ExecuteAtomicOp | source/cpu.cpp:1058-1324 | the A entries as written: register numbers as addresses, register values as register numbers |
| Cpu.CPU.ExecuteCsrOp | source/cpu.cpp:770-841 | the CSR is written before rd, from the 32-bit old value |
| Cpu.CPU.Settle | source/cpu.cpp:1352-1360 | a thrown trap is handled, then interrupts are checked in either case |
| Cpu.CPU.ExecuteWord | source/cpu.cpp:1351-1360 | an undecodable word leaves the step by an exception, any other is executed and settled |
| Cpu.CPU.Step | source/cpu.cpp:1347-1361 | x0 cleared, fetch and decode outside the try block, executor inside it, then the interrupt check |
| Cpu.CPU.RunRounds | source/cpu.cpp:1363-1376 | n rounds of the loop are HartModel.Run, escaped exceptions caught |
| LazyZero.SameExecute | source/cpu.cpp:133-1324 | for one instruction, the machine that clears x0 lazily and the one with x0 hardwired agree if and only if it does not read back x0 |
| LazyZero.LazyZeroStep | source/cpu.cpp:1347-1361 | the same if-and-only-if for a whole step, traps and interrupts included |
| LazyZero.LazyZeroRun | source/cpu.cpp:1347-1376 | over any run without such an instruction both have the same pc, mode, CSRs, memory and registers 1 to 31 after every step |
| LazyZero.JalrReadsBack | source/cpu.cpp:202-212 | a JALR reads back x0 if and only if rd and rs1 are x0 and its link, plus 1 for an odd offset, is at least 2 |
| LazyZero.JalrReadsBackFromEven | source/cpu.cpp:202-212 | from an even pc: if and only if rd and rs1 are x0 and the link is not 0 |
| LazyZero.JalrReadsLink | source/cpu.cpp:207-211 | JALR x0, 0(x0) at KERNBASE sends the two machines to different addresses |
| LazyZero.FirstStepsDiffer | source/cpu.cpp:1347-1361 | the same as the first step after reset: one stays in RAM, the other goes to address 0 |
| TrapProperties.NoInterruptAfterTrap | source/cpu.cpp:1391-1471 | after any trap the interrupt check of the same step does nothing |
| TrapProperties.NoInterruptAfterStep | source/cpu.cpp:1347-1483 | no step that returns leaves an interrupt that could be delivered at once |
| TrapProperties.VectoredEntry | source/cpu.cpp:1400-1408 | in vectored mode interrupt i enters at base + 4i, because 4 * cause loses the interrupt bit |
| TrapProperties.StatusAfterTrap | source/cpu.cpp:1412-1437 | every bit of the status word after a trap, at both levels |
| TrapProperties.ThrowingExecutorIsPure | source/cpu.cpp:133-1324 | an executor that throws has changed nothing, and in Bare mode throws one of five causes |
| TrapProperties.PreciseException | source/cpu.cpp:1347-1361 | a step whose executor throws changes only pc, mode and four CSRs, saves the faulting pc, and takes no interrupt on top |
| TrapProperties.EcallTraps | source/cpu.cpp:591-610 | a step that fetches ECALL traps with cause 8 plus the encoding of the current mode, at its own pc |
| TrapProperties.EcallAfterReset | source/cpu.cpp:1347-1439 | from reset, on a concrete memory: the whole state after the trap |
| TrapProperties.EscapedExceptionIsNotDelivered | source/cpu.cpp:1350-1352 | an exception from fetch or decode leaves mode, CSRs, memory and registers 1 to 31 alone |
| TrapProperties.TrapReturnBracket | source/cpu.cpp:1391-1419 | a delegated trap, any run of code that keeps sstatus and sepc, and SRET restore mode, pc, SIE and every other sstatus bit but SPIE and SPP |
| TrapProperties.MachineTrapReturn | source/cpu.cpp:1420-1438 | a machine trap and MRET restore MIE and the pc, keep the supervisor context, and end in user mode |
| Drain.DrainInOrder | source/cpu.cpp:1462-1483 | after k rounds of interrupt and return the hart is enabled, exactly the first k pending bits are cleared, the rest pend in order, and the pc is 4k lower |
| Drain.DrainDelivers | source/cpu.cpp:1441-1483 | the pending list is ascending and exact, round k delivers its element with cause 2^63 + index, and after the last nothing is left |
| Drain.DrainLength | source/cpu.cpp:1473-1481 | the number of rounds is the population count of mie & mip & 0xAAA |
| Drain.RoundClearsOneBit | source/cpu.cpp:1441-1460 | a delivered interrupt clears its own mip bit; mie, medeleg, registers and memory stay |
| Drain.DeliveredCause | source/cpu.cpp:1441-1460 | the cause CSR of the entered level holds 2^63 plus the bit index |
| Drain.RoundReturns | source/cpu.cpp:1391-1483 | one interrupt and its return end in an enabled state, in the old mode if delegated, else in user mode |
| Drain.InterruptResumesEarly | source/cpu.cpp:1393 | an interrupt and its return never resume at the interrupted pc |
| Invariants.StepKeepsPaging | source/cpu.cpp:1378-1389 | every step keeps the paging fields in agreement with satp |
| Invariants.ReachablePagingAgrees | include/cpu.h:91-98 | in every state reachable from reset paging is Sv39 exactly when satp bit 63 is set, with root satp[43:0] |
| Invariants.ReachableStep | source/cpu.cpp:1339-1361 | in reachable states only an illegal instruction or a load access fault leaves a step, and none runs with satp bit 63 set |
| Invariants.ExecuteParity | source/cpu.cpp:191-290 | an instruction keeps pc, sepc and mepc even if and only if it writes no odd value to sepc or mepc |
| Invariants.RunKeepsEven | source/cpu.cpp:1347-1376 | over any run without such a write they stay even |
| Programs.AssembledRuns | source/cpu.cpp:1347-1361 | an assembled word decodes to its instruction and runs with its fields |
| Programs.StepIgnoresOrder | source/cpu.cpp:1327-1361 | any reordering of the table, or repeated entries, leaves every step of every state unchanged |
| Programs.BranchLands | source/cpu.cpp:213-290 | every branch goes to its pc plus the signed 13-bit offset if taken, else to the next instruction, and changes nothing else |
| Programs.JalLands | source/cpu.cpp:191-201 | JAL reaches its pc plus the 21-bit offset if and only if the offset fits 20 bits; the link is pc + 4 |
| Programs.JalrTarget | source/cpu.cpp:202-212 | JALR reaches the old rs1 plus offset if and only if rd is another register, or link and rs1, plus 1 for an odd offset, agree up to bit 0 |
| Programs.JalrTargetFromEven | source/cpu.cpp:202-212 | from an even pc and base: if and only if rd is another register or rs1 already holds the link |
| Programs.LuiAddiw | source/cpu.cpp:171-672 | LUI and ADDIW put any signed 32-bit constant, sign-extended, into any register but x0 |
| Programs.DivisionProgramRuns | source/cpu.cpp:846-947 | what DIV, MUL, REM, ADD in sequence leave in the registers |
| Programs.DivisionProgramRestores | source/cpu.cpp:846-947 | that sequence gives back the dividend for all register contents |
| Programs.StoreLoadRoundTrip | source/cpu.cpp:291-391 | a store and a load of the same width, base and offset give the sign- or zero-extended low bits |
| Programs.CsrReadOnly | source/cpu.cpp:782-841 | CSRRS, CSRRC, CSRRSI and CSRRCI with operand 0 leave the CSR unchanged if and only if its upper half is zero |
| Conformance.RegisterConforms | source/cpu.cpp:483-963 | the result of every register-register instruction, by order, bits, congruence or quotient and remainder; undefined only for a shift by 64 or more |
| Conformance.Register32Conforms | source/cpu.cpp:703-1055 | the W divisions exactly, of the low halves; the W sums, product and shifts in all 64 bits, as the source computes them |
| Conformance.ImmediateConforms | source/cpu.cpp:393-472 | ADDI adds the signed immediate; SLLI and SRLI move every bit by their amount |
| Conformance.ShiftAmountsFit | source/cpu.cpp:453-472 | every word that decodes to SLLI or SRLI has an amount below 64 |
| Conformance.BranchConditions | source/cpu.cpp:213-290 | the six conditions, by equality, biased order and borrow |
| Conformance.LoadsExtend | source/cpu.cpp:291-355 | the loaded number is in the signed range of its width and agrees with the bytes |
| Conformance.WidthsFollowFunct3 | source/cpu.cpp:291-662 | access widths and zero extension follow funct3 |
| Conformance.CsrExchange | source/cpu.cpp:770-841 | what all six CSR instructions read and write, bit by bit |
| Departures.SltIsSigned | source/cpu.cpp:513-522 | SLT is the signed comparison if and only if the operands have the same sign |
| Departures.SraIsArithmetic | source/cpu.cpp:553-562 | SRA is the arithmetic shift if and only if the operand is non-negative or the amount zero |
| Departures.SltiMatches | source/cpu.cpp:403-412 | the exact condition for SLTI, which compares unsigned with a zero-extended immediate |
| Departures.SltiuMatches | source/cpu.cpp:413-422 | the exact condition for SLTIU, whose immediate is zero-extended |
| Departures.HighProductMatches | source/cpu.cpp:856-885 | MULH, MULHSU and MULHU, which return the low half, are right if and only if 2^64 + 1 divides the product (its successor if negative) |
| WordDepartures.WordSumMatches | source/cpu.cpp:703-722 | ADDW and SUBW are the manual's if and only if the signed sum or difference of the operands is a 32-bit number or overflows 64 bits to one |
| WordDepartures.WordProductMatches | source/cpu.cpp:968-977 | MULW is the manual's if and only if the signed product is a 32-bit number, up to a multiple of 2^64; for 32-bit operands, if it is one |
| WordDepartures.SllwMatches | source/cpu.cpp:723-732 | SLLW: the bits of rs1 that stay in 64 bits must form a sign-extended number of 32 - n bits, and be zero from amount 32 on; undefined from 64 |
| WordDepartures.SrlwMatches | source/cpu.cpp:733-742 | SRLW: rs1 must be a sign-extended number at amount 0 and have no upper half at 1 to 31; from 32 on its halves must agree in the bits that stay, with bit 31 clear at 32 |
| WordDepartures.SrawMatches | source/cpu.cpp:743-752 | SRAW: as SRLW, and from amount 1 on with bit 31 of rs1 clear |
| Departures.SraiIsUndefined | source/cpu.cpp:473-482 | every word that decodes to SRAI asks for an undefined shift |
| Departures.ImmediateShifts32Copy | source/cpu.cpp:673-702 | SLLIW, SRLIW and SRAIW copy rs1 to rd |
| Departures.MretMode | source/cpu.cpp:153-157 | MRET enters the mode that MPP encodes if and only if MPP is 0 or 1 |
| Departures.XoriMatches | source/cpu.cpp:423-432 | XORI gives the manual's result if and only if bit 11 of the immediate is clear |
| Departures.AndiMatches | source/cpu.cpp:443-452 | the exact condition for ANDI |
| Departures.OriMatches | source/cpu.cpp:433-442 | the exact condition for ORI |
| Departures.OffsetMatches | source/cpu.cpp:291-391 | a load or store address is the manual's if and only if bit 11 of the offset is clear |
| Departures.AuipcMatches | source/cpu.cpp:181-190 | AUIPC gives the manual's address if and only if bit 31 of the immediate is clear |
| Departures.CsrrsSets | source/cpu.cpp:782-793 | CSRRS sets bits and keeps the others if and only if the upper half of the old value is within rs1 |
| Departures.CsrrcClears | source/cpu.cpp:794-805 | the same condition for CSRRC |
| Departures.CsrNumberForms | source/cpu.cpp:806-841 | CSRRWI is the manual's always, CSRRSI and CSRRCI if and only if the old value fits 32 bits |
| Departures.CsrReadMatches | source/cpu.cpp:770-841 | in all six CSR instructions rd gets the whole old value if and only if it fits 32 bits |
| Levels.PriorityMatches | source/cpu.cpp:1441-1483 | the interrupt tried first is the one of highest priority if and only if none of lower priority has a lower number |
| Levels.DelegationMatches | source/cpu.cpp:1395-1412 | medeleg and mideleg lead to the same level if and only if the mode is machine or their bits agree |
| Levels.StepLevel | source/cpu.cpp:1347-1361 | a step ends at the vector of the level it traps to, or in the level that SRET and MRET choose, or where it was |
| Levels.UserRun | source/cpu.cpp:1347-1376 | any run from user mode enters another level only at its vector, as long as no SRET or MRET is executed in user mode |

## Left out

- PageWalk.Translate: the page-table read is a function of the address and taken as physical, because the source's own read never returns (Mmu.ReentryNeverReturns).
- Sv39Manual.TranslationMatches: one direction for a whole walk, because two different tables may lead to the same result; NextMatches and LeafMatches give the exact condition for each entry. Permissions, the accessed, dirty and reserved bits, which the source does not look at, are not compared, and page faults are not told apart by the kind of access.
- Levels.PriorityMatches: the manual's conditions for enabling interrupts are not compared, only their order and level.
- Cpu.CPU.RunRounds: the endless loop is modelled by its first n rounds, for every n.
- Programs.BranchLands: the theorems of this module are about the executor with the parsed fields; AssembledRuns ties it to the assembled word.
- The A extension is modelled as written, with no statement about what the ISA asks of it.
- UART: only the first register can be loaded; its buffer, which no load returns, is not state. VirtIO, CLINT and PLIC: address ranges only.
- Reading the file and the ELF header, the copy of the program headers, `main.cpp`, and the printing helpers.
- `RunInstruction`, which bypasses fetch, traps and interrupts.
- The privilege mode stored in the MMU, which the CPU never updates and `Translate` does not distinguish.

# A verified model of the m68kemu core

This project models the parts of the Motorola 68000 emulator in which a cache, an index, a queue or a
bit-level formula has to agree with something simpler, and proves that it does: the bus address decoder
and the RAM shortcut, the cycle scheduler, exceptions and interrupts, the condition-code arithmetic, MOVEM
and the debug history. `dafny verify dfyconfig.toml` checks everything.

Objects that the emulator updates in place are classes (`RAM`, `Bus`, `CycleScheduler`,
`InterruptController`, `Cpu`, `Ring`); each of their methods is proved equal to a function on values or to
an independent description, and the main results are lemmas about those. Words are bounded integers with
explicit wrap-around (`Words.dfy`); the bit operators `&`, `|`, `^`, `&^` are defined on naturals and specified
bit by bit (`Bits.dfy`).

How the files build on each other:

- `Memory`, `Devices`, `PageMap`, `Bus`: RAM, the kinds of device, the sorted page index, the bus. A device is a
  RAM, a mapped window or user code known by its answers.
- `FastPath`, `Transparency`: the CPU's shortcut around the bus, access by access and over whole runs.
- `Interrupts`, `Status`, `Core`, `CoreMemory`, `ExceptionEntry`, `ExceptionRuns`, `Outcomes`: pending queues, the
  status word, exception entry and return as functions on states, and runs of them (M68000 User's Manual,
  section 6).
- `Arithmetic`, `Extend`, `Chains`, `MemoryChains`, `Divide`, `Shift`, `ShiftBits`: flags, multi-precision chains, division,
  shifts and rotates (M68000 Family Programmer's Reference Manual, section 4).
- `Movem`, `Instructions`, `History`: the register transfer, single instructions with their faults, the history ring.
- `Calendar`, `Scheduler`: what the scheduler does, told with an unordered set, and the array that does it.
- `Cpu`: the CPU object; its methods are proved equal to the functions above.

## What the code does where one might expect otherwise

These are facts about the code, each with its exact condition proved:

- With unranged devices in the list, decoding is not first-match: a later ranged device wins over an earlier
  unranged one (`BusDecoder.DecodeMixed`, `BusDecoder.UnrangedLosesPriority`).
- The shortcut differs from the bus in three cases: an odd word or long below the RAM is a bus error instead of
  an address error; a long at 0xfffffe of a RAM filling all 16 MB does not wrap; and the same long of a RAM that
  reaches beyond the 24-bit space reads on there, where the bus goes to address 0, which cannot be told apart
  only while both places hold the same word (`FastPath.FastLoadRefines`, `FastPath.FastStoreRefines`).
- ADDX.L never sets C and X; SUBX.L loses the borrow when X is set and the source is all ones; V of ADDX and
  SUBX is wrong exactly when X is set and the source is the largest positive number (`Extend.AddxMeaning`,
  `Extend.SubxMeaning`).
- A RAM agrees with its entry in the page index only under the condition of `Devices.RamConsistent`.
- An interrupt of level 7 is not accepted while the mask is 7: acceptance always needs a level above the mask
  (`Interrupts.ServedIsOldestOfHighest`).
- A scheduler target that wraps beyond 2^64 leaves the clock where it was (`Calendar.AdvanceMeaning`).

## Model

| member | source | states |
|---|---|---|
| `Memory.RAM.Read` | memory.go:24-44 | a read inside the block gives the big-endian value there, any other a bus error with its address; the caller owes only that the range check cannot pass an access beyond the slice |
| `Memory.RAM.Write` | memory.go:24-69 | the block afterwards and the error, under the same condition |
| `Memory.SafeExactly` | memory.go:24-27 | the range check passes an access beyond the slice exactly when it starts in or above the RAM, runs over 2^32 and comes round to below the end of the RAM |
| `Memory.BigEndian` | memory.go:29-69 | the first byte of a word or long is the most significant one |
| `Memory.StoreLoad` | memory.go:29-69 | what was written is read back, cut to the size; all other bytes keep their value |
| `Devices.Device.Read` | bus.go:324-329 | a window passes on exactly the accesses that lie wholly inside it |
| `Devices.Device.Write` | bus.go:342-347 | the fault, and the contents of every array of bytes afterwards: only the storage behind the device may change |
| `Devices.WindowExactly` | bus.go:324-347 | a window hands an access on exactly when every byte of it lies in the window; otherwise it answers with a bus error and writes nothing |
| `Devices.IndexedExactly` | bus.go:229-239 | a device is indexed under exactly the addresses of its masked range; an inverted range holds none |
| `Devices.RamConsistent` | memory.go:13-22 | a RAM's masked range describes what it contains if and only if it is non-empty, starts in the 24-bit space and does not run over its end (other than ending on a multiple of 16 MB) |
| `Devices.MappedConsistent` | bus.go:307-322 | a mapped window is described by its range if and only if it is not inverted |
| `PageMap.FindPageMappedDevice` | bus.go:430-447 | the binary search finds what a linear scan of the page finds, and terminates |
| `PageMap.Uncovered` | bus.go:379-405 | the gaps are sorted, disjoint, and cover exactly what of [start, end] was uncovered |
| `PageMap.Merge` | bus.go:405-428 | merging two disjoint sorted lists keeps exactly their ranges and the order |
| `PageMap.MergedLookup` | bus.go:379-428 | covered addresses keep their device, new ones get the new device |
| `BusDecoder.Bus.AddPageRange` | bus.go:379-428 | the page stays sorted, non-empty and disjoint; coverage is the union; no covered address changes hands; no other page changes |
| `BusDecoder.Bus.RefreshTopology` | bus.go:214-255 | every cached field says what a scan of the device list would say |
| `BusDecoder.Bus.AddRanges` | bus.go:229-252 | the index for a list extended by one device, from the index for the list |
| `BusDecoder.Bus.RefreshFastRAM` | bus.go:257-263 | on right topology caches it makes the bus valid, with the shortcut set exactly when the device list is one RAM and the bus has no wait states |
| `BusDecoder.Bus.AddDevice` | bus.go:75-78 | the caches are right again after a device is added |
| `BusDecoder.Bus.SetWaitStates` | bus.go:82-85 | the caches are right again after the wait states change |
| `BusDecoder.Bus.FindDevice` | bus.go:265-280 | index and fallback scan together implement the decoding rule |
| `BusDecoder.Bus.DeviceForAddress` | bus.go:282-298 | all caches together implement the decoding rule, for any list of devices |
| `BusDecoder.DecodeExactly` | bus.go:265-298 | the decoding rule as quantifiers over the list, for any devices: a lone device by Contains, else the first whose range holds the address, else the first that contains it |
| `BusDecoder.DecodeIsFirstMatch` | bus.go:214-298 | with truthful ranges the rule is: the first device in list order that contains the address |
| `BusDecoder.DecodeMixed` | bus.go:265-280 | with unranged devices mixed in, first-match fails exactly when an unranged device matches first and a later ranged one matches too |
| `BusDecoder.UnrangedLosesPriority` | bus.go:265-280 | two devices on which it fails |
| `BusDecoder.Bus.Wait` | bus.go:168-183 | the hook gets one call with the bus's wait states plus the device's, modulo 2^32, unless that is 0 or there is no hook; the early return never swallows it |
| `BusDecoder.Bus.Read` | bus.go:103-123 | a read is its one or two word cycles decoded one by one, alignment first; the hook receives the wait states of exactly the cycles made |
| `BusDecoder.Bus.Write` | bus.go:151-166 | likewise for writes, the contents of all memory included; the first word stays when the second cycle fails |
| `BusDecoder.LongReadIsTwoWords` | bus.go:103-123 | on any list of devices an aligned long read is the word read at its address and the one two bytes on, around the end of the space; the first to fail decides |
| `BusDecoder.LongWriteIsTwoWords` | bus.go:151-166 | likewise for writes: the low half is written only if the high half was |
| `BusDecoder.LongChargedAsTwoWords` | bus.go:103-183 | and for the wait states the hook hears of |
| `FastPath.LoneBus` | bus.go:103-166 | on a bus with a single RAM an access is determined by the RAM's bytes |
| `FastPath.FastLoadRefines` | cpu.go:566-609 | for any RAM whose end is a uint32 the shortcut answers a read as the bus does, value, kind of error and address, if and only if it is neither odd below the RAM nor a long over the end of the space, of a RAM that reaches on at 0 or beyond it, whose second word differs |
| `FastPath.FastStoreRefines` | cpu.go:611-658 | the same for writes, with the memory left behind, half-written longs included; over the end of the space the two agree only if both places already hold the word written |
| `FastPath.FastFetchRefines` | cpu.go:1563-1635 | instruction fetches have only the exception at the end of the space |
| `FastPath.OddWordBelow` | cpu.go:573-586 | a word at address 1 below a RAM at 0x1000: bus error against address error |
| `FastPath.LongAroundTheEnd` | cpu.go:598-600 | a long at 0xfffffe of a 16 MB RAM: bus error against a value |
| `FastPath.LongBeyondTheEnd` | cpu.go:598-607 | the same long of a RAM four bytes larger: the word at 0x1000000 against the word at 0 |
| `FastPath.FastPathIsFree` | bus.go:257-263 | where the shortcut is set the bus would have charged no wait states |
| `Transparency.TransparentExactly` | cpu.go:566-609 | shortcut and bus answer every read alike if and only if the RAM starts at 0 or 1 and is smaller than 16 MB |
| `Transparency.ExecuteSame` | cpu.go:490-557 | any code, access by access, gets the same answers and leaves the same state on both |
| `Transparency.FetchOutcome` | cpu.go:1563-1635 | an instruction fetch gives what lies at PC or records itself as the running code's read of program space |
| `Transparency.RunSame` | cpu.go:490-658 | on such a RAM no run of instructions, traps, faults, interrupts and returns distinguishes the two; an instruction is any sequence of fetches, reads and writes, each chosen from registers, recorded fault and the answers so far |
| `Interrupts.InterruptController.Request` | interrupts.go:28-52 | levels 1 to 7 append the vector, or 24 + level without one, to their level's queue; level 0 and levels above 7 change nothing; the cached level stays right |
| `Interrupts.InterruptController.Pending` | interrupts.go:54-85 | nothing exactly when no queue above the mask has a request; else the head of the highest such queue, and only that leaves its queue |
| `Interrupts.InterruptController.HasPending` | interrupts.go:87-89 | true exactly when Pending would succeed |
| `Interrupts.ServedIsOldestOfHighest` | interrupts.go:54-85 | something is served exactly when a level above the mask waits, and it is the oldest of the highest level |
| `Interrupts.RequestsConserved` | interrupts.go:28-85 | over any run, the requests of a level are those served in order followed by those still waiting |
| `Status.ReplacedFlags` | ssr_helpers.go:8-10 | replacing flags takes the selected ones and keeps X (or not) and the supervisor bit |
| `Status.ReplacedExactly` | ssr_helpers.go:8-10 | the new status word as a number: the low four or five bits of the flags under the old bits above them, mask and trace among these |
| `Status.ExceptionSR` | cpu.go:946-948 | exception entry sets the supervisor bit and keeps the mask |
| `Status.SupervisorAdded` | cpu.go:946-948 | bit by bit: bit 13 is set, every other bit is kept |
| `Status.InterruptSRMask` | cpu.go:1062-1066 | the SR an interrupt installs is supervisor state masked at the accepted level |
| `Status.InterruptBit` | cpu.go:1062-1066 | bit by bit: the level in bits 8 to 10, bit 13 set, every other bit kept |
| `Status.MaskIs` | cpu.go:1062-1095 | the interrupt mask is the number in bits 8 to 10 |
| `Core.SetSRKeepsStackPointers` | cpu.go:1031-1042 | no change of SR loses the user or supervisor stack pointer, A7 is the one of the new mode, and no other register changes |
| `CoreMemory.LoadInside` | cpu.go:490-518 | an aligned read inside RAM gives the bytes there, with or without the shortcut |
| `CoreMemory.StoreInside` | cpu.go:528-557 | a write succeeds exactly inside RAM, or when the bus carries a long around the end of a RAM filling all 16 MB |
| `ExceptionEntry.Entered` | cpu.go:896-918 | group 1/2 entry leaves SR and PC below the supervisor stack pointer, changes nothing else in memory and keeps the user stack pointer; the stack may begin at the top of the address space |
| `ExceptionEntry.EnteredGroup0` | cpu.go:955-990 | group 0 entry leaves the fault's description and then SR and PC |
| `ExceptionEntry.WroteAll` | cpu.go:970-986 | a frame written without a fault is in memory word for word and nothing else has changed |
| `ExceptionEntry.WritesExactly` | cpu.go:970-986 | writing a frame succeeds exactly when all of it lies in RAM |
| `ExceptionEntry.VectoredExactly` | cpu.go:1044-1060 | the handler is the vector's entry, or the uninitialised-interrupt entry if that is 0; it is found exactly when the entries lie in RAM |
| `ExceptionEntry.EntryExactly` | cpu.go:896-921 | told from the state before: a group 1/2 entry completes if and only if the stack pointer is even, 6 bytes fit and the handler is readable in memory with the frame in it; PC is then that handler |
| `ExceptionEntry.Group0Exactly` | cpu.go:955-991 | the same for bus and address errors with 14 bytes |
| `ExceptionEntry.EntryForeseen` | cpu.go:896-921 | for a frame clear of the two table entries the handler can be looked up in memory as it was |
| `ExceptionEntry.Group0Foreseen` | cpu.go:955-991 | the same for bus and address errors |
| `ExceptionEntry.EntryImage` | cpu.go:908-915 | memory after a group 1/2 entry is memory before with exactly the frame written |
| `ExceptionEntry.FrameReadsBack` | cpu.go:1926-1945 | the frame decoder finds in memory what entry stacked |
| `ExceptionEntry.Group0ReadsBack` | cpu.go:1945-1971 | the frame decoder finds the recorded fault, SR and PC |
| `ExceptionEntry.StatusWordReads` | cpu.go:1815-1825 | direction, instruction bit and function code can be told from the status word |
| `Outcomes.ReadFaultReported` | cpu.go:490-518 | after a failed read the handler of the right vector finds the access described: the address blamed (the second word of a long whose first word is in RAM), direction, function code, opcode, SR, PC |
| `Outcomes.WriteFaultReported` | cpu.go:528-557 | the same after a failed write |
| `Outcomes.AccessFaults` | cpu.go:566-658 | which error a failing access reports, and for which address, on shortcut and bus |
| `Outcomes.FaultEntered` | cpu.go:1097-1112 | a completed bus or address error entry: handler of vector 2 or 3, SR gains bit 13 and keeps every other bit, memory changes only in the fourteen bytes of the frame, which describe the fault, A7 points to them and every other register is kept |
| `Outcomes.OthersKept` | cpu.go:896-944 | a group 1/2 entry, completed or not, keeps data registers, A0 to A6 and the opcode; one that fails keeps PC |
| `Outcomes.OthersKeptGroup0` | cpu.go:955-1018 | likewise for bus and address errors |
| `Outcomes.EntryFaultRecorded` | cpu.go:896-944 | what a faulting push or handler fetch records: supervisor data write, supervisor program read, neither by the instruction |
| `Outcomes.ExceptionTraps` | cpu.go:946-948 | a synchronous exception changes memory only in the six bytes of its frame, which hold the interrupted SR and PC; A7 points to it, SR gains exactly the supervisor bit, PC is the handler, every other register is kept |
| `Outcomes.UserRteTraps` | op_system.go:170-173 | RTE in user state traps through vector 8 and pops nothing |
| `Outcomes.ZeroDivideTraps` | op_arithmetic.go:370-372 | division by zero traps through vector 5 and leaves every data register alone |
| `Outcomes.RequestReachesHandler` | cpu.go:1082-1095 | a request above the mask with nothing waiting at its level or above is taken by the next check: the handler of its vector, 24 + level if it has none, runs at its level and the queues are as before it |
| `Outcomes.InterruptAccepted` | cpu.go:1082-1095 | nothing happens unless a level above the mask waits; else the oldest request of the highest level leaves its queue and its handler runs; SR has the level as mask, bit 13 set and every other bit kept; nothing changes but the six bytes of the frame, A7, PC and SR |
| `ExceptionRuns.StepKeepsValid` | cpu.go:896-1112 | every step of the machine keeps every saved frame intact and frames apart, whatever handlers do to SR and to memory outside the six bytes of each frame |
| `ExceptionRuns.ReturnRestores` | op_system.go:170-188 | RTE brings back exactly the context of the innermost frame and keeps memory, data registers, A0 to A6 and the opcode |
| `ExceptionRuns.ReturnExactly` | op_system.go:170-188 | in supervisor state RTE completes if and only if both words of the frame can be read; otherwise only A7 may have moved, past SR when only the PC cannot be read |
| `ExceptionRuns.NestedRunRestores` | op_system.go:170-188 | any entry, any handler that leaves the bytes of the active frames alone, with nested entries and returns to any depth, and the return: PC, SR and the supervisor stack pointer are back, the user stack pointer and A7 too unless the handler changed the former |
| `ExceptionRuns.EmptyHandler` | cpu.go:896-944 | the hypotheses of the previous row are met whenever the frame fits and the handler is readable |
| `ExceptionRuns.OuterFramesKept` | cpu.go:896-944 | code inside a handler cannot disturb the outer frames |
| `ExceptionRuns.StepKeepsMasks` | cpu.go:1062-1095 | every step keeps each mask in force, now or saved, at or above the level it belongs to, if the running code does not lower its own |
| `ExceptionRuns.LevelsIncrease` | cpu.go:1062-1095 | the levels being served strictly increase inwards and are within the mask |
| `ExceptionRuns.NestingBounded` | cpu.go:1062-1095 | over any run of code that does not lower its own mask at most 7 interrupts are active at once |
| `Cpu.Cpu.FastRAMRead` | cpu.go:566-609 | reads of the shortcut, against the function the refinement is about |
| `Cpu.Cpu.FastRAMWrite` | cpu.go:611-658 | writes of the shortcut, byte by byte into the shared array |
| `Cpu.Cpu.ReadProgramFast` | cpu.go:1563-1635 | instruction fetches of the shortcut, alignment first |
| `Cpu.Cpu.ReadContext` | cpu.go:490-518 | an access through shortcut or bus, with the fault recorded |
| `Cpu.Cpu.WriteContext` | cpu.go:528-557 | likewise for writes, the RAM's contents included |
| `Cpu.Cpu.SetSR` | cpu.go:1031-1042 | the in-place update swaps the stack pointers as specified |
| `Cpu.Cpu.RaiseExceptionWithPC` | cpu.go:896-944 | the in-place entry, every early return included, is the entry of the model |
| `Cpu.Cpu.RaiseGroup0Exception` | cpu.go:955-1018 | likewise for group 0 |
| `Cpu.Cpu.HandleFaultError` | cpu.go:1097-1112 | likewise for the choice of vector |
| `Cpu.Cpu.ReadVector` | cpu.go:1044-1060 | likewise for the vector fetch |
| `Cpu.Cpu.Rte` | op_system.go:170-188 | likewise for RTE |
| `Cpu.Cpu.Interrupt` | cpu.go:1062-1080 | likewise for interrupt acceptance |
| `Cpu.Cpu.CheckInterrupts` | cpu.go:1082-1095 | CPU and controller together take the model's step |
| `Arithmetic.AddMeaning` | op_arithmetic.go:273-294 | result and N, Z, V, C, X of addition are those of integer addition, unsigned and signed |
| `Arithmetic.SubMeaning` | op_arithmetic.go:296-317 | likewise for subtraction |
| `Arithmetic.ConditionMeaning` | op_control_flow.go:71-108 | the sixteen conditions as formulas over the named flags, always and never included |
| `Arithmetic.CompareDecides` | op_control_flow.go:71-108 | after a compare the conditions decide signed and unsigned order, equality and overflow at every size |
| `Extend.AddxMeaning` | op_arithmetic.go:849-869 | result, N and Z of ADDX at every size; C and X are right exactly below Long or when there is no carry; V is wrong exactly in one case |
| `Extend.SubxMeaning` | op_arithmetic.go:871-891 | likewise for SUBX, with the exact lost borrow |
| `Extend.LongCarryLost` | op_arithmetic.go:849-869 | 0xffffffff + 1 at Long leaves no carry |
| `Extend.LongBorrowLost` | op_arithmetic.go:871-891 | 0 - 0xffffffff - 1 at Long leaves no borrow |
| `Extend.OverflowMistaken` | op_arithmetic.go:862-864 | V at source 0x7f with X set, wrong both ways |
| `Extend.ExtendZero` | op_arithmetic.go:893-899 | a step can clear Z but never set it |
| `Chains.BcdAddMeaning` | op_arithmetic.go:994-1010 | decimal addition of two digits with carry in and out; the result is valid BCD |
| `Chains.BcdSubMeaning` | op_arithmetic.go:1012-1031 | decimal subtraction with borrow |
| `Chains.BCDFlags` | op_arithmetic.go:975-992 | the flags after ABCD and SBCD |
| `Chains.StepMeaning` | op_arithmetic.go:728-766 | one equation for one limb of ADDX, SUBX, ABCD and SBCD, below Long |
| `Chains.BinaryStepMeaning` | op_arithmetic.go:728-766 | ADDX and SUBX at every size, Long included: the exact sum or difference cut to the size, every condition code with its exact deviations, the bits above kept |
| `Chains.DecimalFlags` | op_arithmetic.go:975-1031 | ABCD and SBCD on any operands: C as X, N and V clear, Z kept only over zero, the bits above the condition codes kept |
| `Chains.ChainComputes` | op_arithmetic.go:849-1031 | n steps compute the n-limb sum or difference modulo base^n; X is the final carry or borrow, Z tells whether the whole result is 0 |
| `Chains.ChainUndone` | op_arithmetic.go:849-1031 | SUBX undoes ADDX and SBCD undoes ABCD over any number of limbs, and the other way round |
| `MemoryChains.MergedIsOr` | op_arithmetic.go:797-807 | writing the low part of a register, against the bit operators |
| `MemoryChains.StepRegisterMeaning` | op_arithmetic.go:797-809 | Dy,Dx: digits and carries balance on the low parts, the bits above and every other register are kept |
| `MemoryChains.StepRegisterExactly` | op_arithmetic.go:797-809 | Dy,Dx for every operation, size and operand: the low part of Dx and the condition codes get the result of the step, nothing else changes |
| `MemoryChains.Decrement` | operands.go:51-56 | the step is the size of the operand, for A7 the least even number no smaller |
| `MemoryChains.MemoryChain` | op_arithmetic.go:810-831 | repeating -(Ay),-(Ax) is the chain over the limbs in memory, in place, touching nothing but the destination, for any two operands, overlapping or not, of which no result overwrites a source limb still to be read |
| `MemoryChains.ApartIsSafe` | op_arithmetic.go:810-831 | no result overwrites a source limb still to be read where the operands lie apart, coincide, or have the same step and the source ends no higher than the destination |
| `MemoryChains.MemoryArithmetic` | op_arithmetic.go:728-766 | hence multi-precision arithmetic in memory, binary and decimal, A7's double step for bytes included |
| `Instructions.MemoryStepExactly` | op_arithmetic.go:810-831 | one -(Ay),-(Ax) on any operands: both registers are decremented in every case; it completes exactly when both operands can be read, the source blamed first, and then only the destination and the condition codes change besides |
| `Divide.DivisionUnique` | op_arithmetic.go:405-411 | quotient and remainder are determined by their defining property |
| `Divide.UnsignedMeaning` | op_arithmetic.go:374-392 | the value and flags DIVU computes: quotient and remainder packed with N and Z of the quotient, or V and the dividend, exactly when the quotient exceeds 16 bits |
| `Divide.SignedMeaning` | op_arithmetic.go:405-427 | the same for DIVS, -2^31 by -1 included |
| `Divide.DivideStepMeaning` | op_arithmetic.go:374-427 | DIVU and DIVS on the machine: the low half of Dn reads the true quotient, the high half the remainder, N and Z describe the quotient; or V is set and Dn kept if it does not fit; X, the bits above, all other registers, memory and the recorded fault are kept |
| `Shift.Asl` | op_bit_logical.go:569-589 | value times 2^count, last bit out, V exactly when the signed product does not fit |
| `Shift.Asr` | op_bit_logical.go:591-604 | signed value divided by 2^count and floored, last bit out |
| `Shift.Lsl` | op_bit_logical.go:606-615 | unsigned value times 2^count, last bit out |
| `Shift.Lsr` | op_bit_logical.go:617-626 | unsigned value divided by 2^count, last bit out |
| `Shift.Roxl` | op_bit_logical.go:628-639 | the count-fold one-bit rotation of the (width + 1)-bit word of X and value, though the loop reduces the count |
| `Shift.Roxr` | op_bit_logical.go:641-652 | likewise to the right |
| `Shift.RolRotates` | op_bit_logical.go:654-665 | the closed form is the count-fold one-bit rotation; carry is the lowest bit |
| `Shift.RorRotates` | op_bit_logical.go:667-678 | likewise to the right; carry is the highest bit |
| `Shift.RotationsUndo` | op_bit_logical.go:628-678 | left and right rotations undo each other |
| `Shift.LeftPeriod` | op_bit_logical.go:628-665 | a count matters only modulo the width of the ring |
| `Shift.DoShiftRotate` | op_bit_logical.go:531-567 | the meaning of all eight operations, and of a count of zero |
| `Shift.ShiftFlagsMeaning` | op_bit_logical.go:680-707 | the condition codes afterwards |
| `ShiftBits.BitsMove` | op_bit_logical.go:531-678 | the arithmetic meaning of every shift and rotate is its meaning bit by bit: where each bit of the operand goes and which one is shifted out |
| `ShiftBits.LeftTurns` | op_bit_logical.go:628-678 | rotating left by count takes bit k to bit k + count around the ring |
| `ShiftBits.RightTurns` | op_bit_logical.go:628-678 | and rotating right brings it back |
| `ShiftBits.KeepsSystem` | op_bit_logical.go:680-707 | the bits above the condition codes are kept |
| `Cpu.Cpu.Divu` | op_arithmetic.go:361-393 | the in-place instruction, its trap included |
| `Cpu.Cpu.Divs` | op_arithmetic.go:395-428 | the in-place instruction, its trap included |
| `Cpu.Cpu.ExtendRegister` | op_arithmetic.go:797-809 | ADDX, SUBX, ABCD, SBCD Dy,Dx in place: for every size and operand the result and condition codes of the step; on valid limbs digits and carries balance; nothing but the low part of Dx and the condition codes changes |
| `Cpu.Cpu.ExtendMemory` | op_arithmetic.go:810-831 | the same on memory, every faulting access included |
| `Cpu.Cpu.ShiftRotate` | op_bit_logical.go:445-497 | the register form: the count is a register modulo 64, or 1 to 8; every bit of the result and every condition code; bits outside the size, other registers and the system byte kept |
| `Movem.ReverseTwice` | op_data_transfer.go:226-229 | the two mask encodings name the same registers |
| `Movem.MovemRegisterOrder` | op_data_transfer.go:226-248 | the order of transfer: listed registers ascending, or descending for the reversed mask |
| `Movem.ExtendedMeaning` | op_data_transfer.go:345-359 | a loaded word keeps its signed value in the whole register, for data registers too; longs are unchanged |
| `Instructions.StoreAtMeaning` | op_data_transfer.go:374-426 | a store to a control mode completes exactly when its bytes lie in RAM at an even address; then each listed Dn and An lies after those listed before it, D0 first, nothing else in memory has changed, and no register ever does |
| `Instructions.PredecrementMeaning` | op_data_transfer.go:374-426 | a store to -(An): the same layout, in the bytes that end where An pointed, for the mask read from the other end; An moves by the whole list exactly when it completes |
| `Instructions.LoadAtMeaning` | op_data_transfer.go:310-372 | a load from a control mode completes exactly when its bytes lie in RAM at an even address; then each listed register has the signed value found at its place and no other register changes |
| `Instructions.PostincrementMeaning` | op_data_transfer.go:310-372 | a load from (An)+: the same from where An points, An incremented past the list unless it was loaded or a read failed |
| `Movem.MovemRoundTrip` | op_data_transfer.go:310-426 | a save and the mirrored restore bring every listed register and An back for any list, whatever other registers and memory went through in between |
| `Movem.ControlRoundTrip` | op_data_transfer.go:310-426 | a list stored at an address and loaded from it comes back, whatever else happened in between |
| `Cpu.Cpu.MovemToMemory` | op_data_transfer.go:374-426 | the in-place loop, descending for -(An) and ascending for the control modes, every faulting write included |
| `Cpu.Cpu.MovemToRegisters` | op_data_transfer.go:310-372 | the in-place loop for (An)+ and the control modes; a loaded An is not overwritten |
| `History.Ring.AppendHistory` | cpu.go:1898-1907 | the list gets the entry and drops its oldest only when full |
| `History.Ring.History` | cpu.go:756-773 | the entries, oldest first |
| `History.Ring.SetHistoryLimit` | cpu.go:733-754 | the limit is the one given, 0 if that is not positive; growing and shrinking keep the newest entries |
| `History.Ring.ResetHistory` | cpu.go:1412-1414 | a reset empties the list and keeps the limit |
| `History.KeepsNewest` | cpu.go:733-773 | after any run of appends, limit changes and resets: the newest entries appended, in order, as many as every situation on the way left room for; the limit is the one last set |
| `Calendar.FireKeepsValid` | scheduler.go:58-65 | firing, whatever the callback schedules, keeps the account: nothing lost, duplicated, early or out of order |
| `Calendar.DrainMeaning` | scheduler.go:58-65 | every due event has run at its deadline or at the time then current |
| `Calendar.AdvanceMeaning` | scheduler.go:52-71 | Advance ends exactly at old time + delta; everything due ran once, in (deadline, insertion) order among what was pending, events added by callbacks included; only later events remain |
| `Calendar.RunsOnTime` | scheduler.go:52-71 | everything pending that is due runs at exactly its deadline, or at the time Advance began if that had passed, whatever callbacks schedule |
| `Calendar.CallbackRunsOnTime` | scheduler.go:58-65 | what a callback schedules runs after it, at its deadline or at the time it was scheduled if that had passed |
| `Calendar.CalledBack` | scheduler.go:30-71 | from call to callback: an event scheduled for a time runs in the Advance that reaches it, once, at that time or at once if it had passed; an Advance that does not reach it leaves it pending |
| `Calendar.AdvanceLedger` | scheduler.go:45-71 | the account of an Advance: every callback sees exactly the calls up to its own; each of its actions becomes one entry, due when it says, in its order; every entry there afterwards was pending before or made by one of them; delta 0 changes nothing |
| `Calendar.FuelIrrelevant` | scheduler.go:58-65 | the bound on the number of firings has no influence |
| `Calendar.PatientSettles` | scheduler.go:58-65 | callbacks that, at any time this Advance can reach, schedule only beyond the target let it finish |
| `Calendar.ForwardSettles` | scheduler.go:58-65 | so do callbacks that, at any such time, schedule later than that time, however often they fire within one Advance |
| `Calendar.TimersSettle` | scheduler.go:45-65 | hence any number of periodic timers, with delays of 1 to some longest, as long as the clock stays that far from 2^64 |
| `Calendar.PeriodicTimerSettles` | scheduler.go:45-65 | in particular a callback that always restarts itself with ScheduleAfter |
| `Calendar.SlowTimerIsPatient` | scheduler.go:45-65 | a timer whose period reaches beyond the window meets the hypothesis of PatientSettles |
| `Scheduler.CycleScheduler.Schedule` | scheduler.go:30-43 | the pending set gains exactly the event with its deadline, callback and number; clock and firings are unchanged, the array stays in firing order |
| `Scheduler.CycleScheduler.Insert` | scheduler.go:35-42 | the shifting loop puts the event behind everything due no later than it and before everything due later, moving nothing else |
| `Scheduler.CycleScheduler.ScheduleAfter` | scheduler.go:45-50 | the same with the deadline counted from now, modulo 2^64 |
| `Scheduler.CycleScheduler.Advance` | scheduler.go:52-71 | the array does what the unordered agenda does; every listener hears of every stop of the clock once, in order |
| `Scheduler.TicksAddUp` | scheduler.go:73-83 | the ticks of a clock visiting given stops are positive and add up to the way it went |
| `Scheduler.TicksTellTime` | scheduler.go:73-83 | each tick carries the time the clock has reached by then |
| `Scheduler.FiringHeard` | scheduler.go:58-65 | whenever a firing moves the clock the listeners are told how far and where to |
| `Scheduler.DeltasAddUp` | scheduler.go:52-83 | the ticks of one Advance add up to delta, or to 0 when the target wraps, and the clock has moved by as much |
| `Scheduler.ListenersAddUp` | scheduler.go:52-83 | each listener told as Advance tells them has heard delta more |
| `Scheduler.CycleScheduler.AdvanceTo` | scheduler.go:73-83 | the clock never goes back; every listener gets one tick with the time passed and the new time when it moves, none otherwise |
| `Scheduler.CycleScheduler.CompactEvents` | scheduler.go:85-101 | the live queue is unchanged, the dead prefix is empty or shorter than the live part, and all copying since the last reset is at most twice the number of firings |
| `Scheduler.CycleScheduler.Reset` | scheduler.go:7-14 | an empty queue at the given time; listeners stay registered |

## Left out

- Text output: verbose logging, disassembly, the String methods, the demo command and the external assembler.
- Tracers, breakpoints, bus traces, RunUntil, Peek and the exception and interrupt callbacks: observation without effect on the modelled state.
- The opcode table, the other instruction handlers (NBCD, NEGX, MUL, logical and bit operations, branches and so on) and the addressing modes: their operands are parameters here.
- Cycle counts: addCycles, overrideInstructionCycles and the per-opcode tables, and so the agreement of scheduler time and CPU cycles.
- Group 1/2 details that only matter to observers: inException, lastException, the stopped state.
- The state inside external devices: such a device answers an access as a function of its arguments, so its own memory is not part of the model.
- MOVEM's address computation for the control modes and the fetch of its mask (the address and the mask are parameters), and the branch for loads from -(An), which the opcode table never reaches.
- Listeners and callbacks that call Advance or Reset: callbacks here only schedule, listeners only listen.
- Slice capacity: an append that grows a backing array is not distinguished from one that does not.
- Cloning of history entries: entries are values.
- Scheduler.CycleScheduler.Advance: requires that some number of firings leaves nothing due, since otherwise the source does not return.
- ExceptionRuns.NestedRunRestores: the user stack pointer comes back only as the handler leaves it, since the source keeps it in a register the handler may write.
- ExceptionRuns.NestingBounded: covers code that does not lower its own mask, without which nesting is unbounded in the source too.
- ExceptionEntry.Entered: excludes frames that straddle the end of the 24-bit space in a RAM that fills all of it (elsewhere such a frame faults, which is covered); so do EnteredGroup0, EntryExactly, Group0Exactly, EntryForeseen, Group0Foreseen, the frame decoder's results, those of Outcomes and the steps of ExceptionRuns.
- Instructions.StoreAtMeaning: excludes save areas that straddle the end of the 24-bit space in a RAM that fills all of it; so do PredecrementMeaning, LoadAtMeaning, PostincrementMeaning, MovemRoundTrip and ControlRoundTrip.
- Instructions.MemoryStepExactly: excludes longs over the end of the 24-bit space in such a RAM.
- Chains.BcdAddMeaning: says what the decimal result is for valid BCD operands only, as BcdSubMeaning does, since other operands stand for no number; their flags are covered by Chains.DecimalFlags.
- The memory form of the shifts and rotates, which moves a word by one bit.
- MemoryChains.MemoryChain: excludes operands where a result overwrites a source limb still to be read, which chains over the limbs as they were would not describe.
- FastPath.FastLoadRefines: excludes RAMs that end at or above 2^32; so do the results for writes and fetches.
- Every result about the CPU (exceptions, MOVEM, memory chains, faults, whole runs) is for a bus whose only device is one RAM; those about exceptions, MOVEM and chains are for a RAM within the 24-bit space. The bus itself is covered for any list of devices.
- Chains.ChainComputes: excludes ADDX and SUBX at Long, whose carry the source loses; Extend.AddxMeaning and Extend.SubxMeaning give the exact condition.

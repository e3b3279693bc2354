# RVEM in Dafny

RVEM is an emulator of the RISC-V base integer ISA (RV32I, RV64I, the M extension and the
counter CSRs) with a timing model, and it ships the start-up code, counter reads and printf
that run on it. This project models both sides and proves what they do.

- **The machine.** `Machine.Emulator` is a class with the emulator's own fields: byte arrays
  for ROM and RAM, a register array, pc, two counters, the pipeline record. Its methods follow
  `process_instr`, the bus, the memory accessors, the timing macros and the loop of `main`
  branch by branch, on the same masks and shifts. They are proved against `Semantics`, a step
  function written from the Unprivileged ISA (version 20191213) over decoded instructions and
  plain mathematics. The emulator has no exceptions, so where the ISA raises one the step
  function follows the emulator: a transfer to a misaligned address goes there (`Alignment`
  states when), a word that encodes nothing does nothing, an access to unmapped memory loads
  and stores nothing, and ECALL and EBREAK are calls of the emulator. `Config` chooses RV32 or
  RV64, with or without M; every statement holds for all four builds unless it says otherwise.
- **Words.** Registers are naturals below 2^XLEN. Wrap-around, sign extension and truncating
  division are written out (`Words`, `MulDiv`); the bitwise operators are defined digit by
  digit, and the mask-and-shift immediates of `inc/riscv.h` are proved equal to the immediates
  of section 2.3 of the ISA on every 32-bit word (`Macros`, `Isa`).
- **Meaning.** What the step function comes to is then stated a second time, without naming
  it, in numbers and bits: `Listing` has the instruction words as chapter 24 of the ISA lists
  them, `Results` what each operation computes, `Effects` what a step does once a listed word is
  fetched, `Latency` what it costs after any two instructions, and `Calls` that calls return and
  programs end.
- **Runs.** `Runs`, `Timing`, `Worst`, `Alignment`, `WForms`, `Programs`, `Guest` and
  `Counters` are about any number of steps: invariants from power-on, termination and bounds of
  the run loop, the exact cycle account with an upper bound that a program attains, the runs
  during which the ISA would raise no misaligned-transfer exception, independence of the
  architectural state from timing, whole RV32 programs simulated on RV64 by the W forms, and
  the guest loops of `crt0.S` and `librv.h` run on the machine, correct to the byte and to the
  cycle.
- **printf.** `Output` is the capacity-limited gadget (a class over the caller's array),
  `IntegerText` the integer printer with its 32-character buffer, `Directives` the parser,
  `Completeness` the formats it reads to their end and no further, `Format` the loop and
  `vsnprintf`; `ReadBack` is the round trip of digits.
- **The C standard.** Section 7.19.6.1 of ISO/IEC 9899:1999 is written down on its own:
  `C99` has the integer conversions, `Grammar` the conversion specifications with numbers of
  any size, `Fprintf` the text of whole formats wherever the standard defines one for integers,
  characters, strings and addresses. The last of these is the implementation's choice, so only
  its field is the standard's. `Standard` proves exactly when the code's text is that text.
  `Shapes` says what the standard's texts look like: their digits read back as the value.
  `DirectiveText` is the round trip of directives, stars included, through both grammars, and
  `Composition` gives the code's and the standard's text of any format that is put together
  from literal text and directives.

## Findings

These properties hold only up to a condition that a caller can check. Each condition is proved
to be exact, and each has an input at which it fails.

- An integer conversion prints what the C standard asks for exactly when everything but its
  padding blanks fits 32 characters, with one exception in its favour: a blank sign before a
  precision of exactly 32 is lost, which does not show when the field is wider than 32 and
  right-justified, since it would have stood among blanks (`C99.Conformance`). A precision up
  to 30, and a width up to 32 where zeros fill it, is always enough (`C99.ConformsWithin`).
  `%.33d` of 1 prints 32 digits (`C99.Precision33`).
- Numbers in a format have no bound in the standard; `atou_` reads them modulo 2^32. An integer
  conversion is right exactly when, besides, its width and its precision are below 2^32
  (`C99.WrittenConformance`), a character when its width is (`Standard.CharConformsIff`). For a
  string the width must be below 2^32, and the precision too unless the string is no longer
  than what remains of it modulo 2^32, or the padding replaces blanks by blanks
  (`Standard.StringConformsIff`). `%.4294967296s` of "abc" prints nothing
  (`Standard.WrappedPrecision`).
- A string without a precision is counted up to `INT_MAX`; a longer one in a field wider than
  `INT_MAX` gets too many blanks, unless its length and the width are out by the same amount
  (`Standard.StringConformsIff`, on strings of any length; `Standard.BlanksTrade` has one).
- `%p` does not look at its width: it is right exactly when the width is no more than its text
  has anyway (`Standard.PointerConforms`). `%20p` is short of 20 characters
  (`Standard.PointerTwenty`).
- Where the standard defines the text of a format without `%n`, and strings have at most
  `INT_MAX` characters, the code has a text for it too, never a longer one, and the two are the
  same if and only if every conversion fits in the senses above (`Standard.FormatConformsIff`).
  A longer string may have a blank too many that stands in for a blank sign that was lost, so
  the converse fails there (`Standard.BlanksTrade`). `%n`, which the shipped configuration
  leaves out, prints an n where the standard writes nothing (`Standard.PercentN`).
- After flags or a number the format loop does not look for the terminator again. It takes the
  terminator for a specifier, and goes on behind it, exactly when the format ends inside a
  directive right after a flag or a digit: `Completeness.CutOff` and `Format.RunsPastIff` state
  that on the characters of the format alone. It happens at `%5` (`Format.PercentFive`). The
  loop's precondition is that the format is complete in this sense and that every star and
  specifier has an argument of its kind; a format has a text exactly then (`Format.RendersIff`).
- Capacities above `INT_MAX` are cut to it. That shows for one length of text only: exactly
  `INT_MAX` characters then lose their last to the terminator (`Format.CapacityCut`,
  `Format.LastLetterLost`).
- The ISA raises instruction-address-misaligned on a taken branch or a jump whose target is no
  multiple of 4 (sections 2.2 and 2.5); the emulator goes there and fetches across the word
  boundary for an extra cycle. From an aligned pc, a run keeps pc aligned exactly when the ISA
  would raise at none of its steps (`Alignment.RunAligned`), and then no fetch stalls
  (`Alignment.NoFetchStall`). A jump from 4 to 10 is one that raises (`Alignment.JumpToTen`).
- Of RV32 code translated to W forms, AUIPC comes out alike on RV64 exactly when its result is
  below 2^31 (`WForms.AuipcSimulatesIff`); at 2^31 it does not (`WForms.AuipcAtTheBound`). The
  high products have no W forms; the plain ones come out alike exactly when the signed product
  is between -2^32 and 2^32 and the high word fits 32 bits (`Programs.HighProductSimulatesIff`),
  and 2^16 times 2^16 does not (`Programs.HighProductsDiffer`).

Arguments are an explicit sequence: an integer's bits, a string, or an address.

## Model

| member | source | states |
|---|---|---|
| `Words.SraIsFloor` | inc/common.h:50-51 | SRA and SRAW are floor division by a power of two, for every value and every shift |
| `Words.BitIsDigit` | src/cpu/core.c:96-104 | bit i of a number is its binary digit of weight 2^i |
| `Words.BitwiseMeaning` | src/cpu/core.c:96-104 | the recursive and, or, xor act bit by bit |
| `Words.ShrIsQuotient` | src/cpu/core.c:84-86 | a right shift is the quotient by a power of two |
| `MulDiv.LimbMulExact` | inc/mul.h:39-42 | 32-bit limb products do not wrap in 64 bits |
| `MulDiv.CarryChainNoOverflow` | inc/mul.h:44-46 | no sum of the carry chain overflows 64 bits |
| `MulDiv.CarryChainExact` | inc/mul.h:44-46 | the chain yields the high half of the combined limb products |
| `MulDiv.MulhudwExact` | inc/mul.h:35-47 | mulhudw is floor(a*b / 2^64) for all 64-bit a and b |
| `MulDiv.MulhPortableExact` | inc/mul.h:83-88 | the sign-corrected fallback is the high word of the signed product |
| `MulDiv.MulhsuPortableExact` | inc/mul.h:90-94 | likewise for signed times unsigned |
| `MulDiv.MulhWideExact` | inc/mul.h:103-113 | the double-width product shifted down is the high word of each kind of product |
| `MulDiv.TruncSpec` | inc/mul.h:119-130 | C division: quotient and remainder rebuild a, the remainder is smaller than b and has the sign of a |
| `MulDiv.TruncUnique` | inc/mul.h:119-130 | no other quotient and remainder do |
| `MulDiv.DivisionContract` | inc/mul.h:116-131 | signed division at any even modulus: a is b*q + r always; for b = 0 the quotient is -1 and the remainder a; outside b = 0 and MIN/-1 the truncating pair; results in range |
| `MulDiv.DivisionContractUnsigned` | inc/mul.h:122-136 | unsigned division and remainder; for b = 0 the quotient is all ones and the remainder a |
| `Alu.ProductPairs` | inc/mul.h:6-113 | each high product beside MUL rebuilds the whole double-width product |
| `Alu.HighProductsOk` | src/cpu/core.c:45-53 | the three high products, in both widths, are those of section 7.1 of the ISA |
| `Alu.DivisionOk` | src/cpu/core.c:54-65 | the four divisions are those of section 7.2 of the ISA |
| `Alu.PlainOk` | src/cpu/core.c:74-107 | every right-hand side of the base OP case is the ISA operation |
| `Alu.MulDivOk` | src/cpu/core.c:40-68 | every right-hand side of the M case is the ISA operation |
| `Alu.WordOk` | src/cpu/core.c:151-206 | every right-hand side of the 32-bit cases, casts and all, is the ISA's W operation |
| `Alu.OperandOk` | src/cpu/core.c:118-145 | masking an immediate to a shift amount equals using the encoded amount |
| `Alu.OperandWOk` | src/cpu/core.c:214-229 | the same for the W immediates |
| `Results.ShiftsCompute` | src/cpu/core.c:81-89 | bit by bit: SLL moves bits up and fills with zeros, SRL moves them down, SRA fills with the sign, by the low 5 or 6 bits of the amount |
| `Results.DivisionsCompute` | inc/mul.h:116-136 | quotients and remainders of magnitudes with their signs; all ones and the dividend for a divisor of zero |
| `Results.OperationComputes` | src/cpu/core.c:32-110 | so for all 18 operations at both widths: sums and products modulo 2^XLEN, comparisons of integers, bits, high words |
| `Isa.SplitJoin` | inc/riscv.h:78-88 | fields joined into a word split into the same fields |
| `Isa.JoinSplit` | inc/riscv.h:78-88 | a word split into fields joins to the same word |
| `Isa.DecodeEncode` | src/cpu/core.c:31-391 | decoding the encoding of any legal instruction gives it back |
| `Listing.ListedWords` | inc/riscv.h:9-99 | the word of every legal instruction is the one listed, opcode, codes and immediate bits in numbers, and it decodes to the instruction |
| `Macros.PlainFields` | inc/riscv.h:78-85 | the mask-and-shift field macros are the ISA's bit fields, on every word |
| `Macros.Funct7Bits` | inc/riscv.h:86-88 | the funct7 tests and the ALU selector are the ISA's bits 25 and 30 |
| `Macros.Immediates` | inc/riscv.h:82-99 | the five immediate macros are the immediates of section 2.3 on every word |
| `Macros.IMacroInverts` | inc/riscv.h:83 | packing any I immediate, all else arbitrary, and extracting it gives it back |
| `Macros.SMacroInverts` | inc/riscv.h:99 | the same for S immediates |
| `Macros.BMacroInverts` | inc/riscv.h:89-93 | the same for even 13-bit branch offsets |
| `Macros.UMacroInverts` | inc/riscv.h:84 | the same for upper immediates |
| `Macros.JMacroInverts` | inc/riscv.h:94-98 | the same for even 21-bit jump offsets |
| `Macros.RegisterDecode` | src/cpu/core.c:32-110 | the switches over funct3 and funct7 select the decoded register-register operation |
| `Macros.ImmediateDecode` | src/cpu/core.c:111-150 | likewise for register-immediate operations and loads |
| `Macros.StoreBranchDecode` | src/cpu/core.c:243-298 | likewise for stores and branches |
| `Macros.UpperDecode` | src/cpu/core.c:302-324 | likewise for LUI, AUIPC and JAL |
| `Macros.SystemDecode` | src/cpu/core.c:336-387 | likewise for ECALL, EBREAK and the CSR instructions |
| `Macros.OtherDecode` | src/cpu/core.c:299-391 | only SYSTEM words can stop the machine, FENCE is FENCE, and opcodes outside the switch decode to nothing |
| `Memory.Join2Sum` | inc/cpu.h:42-50 | two bytes shifted and or-ed are their little-endian value |
| `Memory.Join4Sum` | inc/cpu.h:51-65 | four bytes likewise |
| `Memory.Join8Sum` | inc/cpu.h:66-76 | eight bytes likewise |
| `Memory.StoredByte` | inc/cpu.h:144-162 | the k-th stored byte is the value shifted down by 8k, cut to a byte |
| `Memory.WriteByteMap` | inc/cpu.h:133-168 | a store changes exactly its own bytes |
| `Memory.WriteIsByteWrites` | inc/cpu.h:133-168 | a wide store is its first byte store and the store of the rest, at any alignment |
| `Memory.ReadAppend` | inc/cpu.h:83-131 | a wide load is composed of the loads of any two parts |
| `Memory.ReadFrame` | inc/cpu.h:83-168 | a load that a store does not touch is unchanged |
| `Memory.ReadBack` | inc/cpu.h:83-168 | what was stored is read back, cut to the width |
| `Memory.OverlappingRead` | inc/cpu.h:83-168 | a load of any width at any offset sees stored bytes where they overlap and old ones elsewhere |
| `Memory.BytesOfRead` | inc/cpu.h:133-168 | storing what was loaded rewrites the same bytes |
| `Memory.StoreThenLoad` | src/cpu/core.c:233-250 | a load after a store to the same address gets the stored register cut and extended again |
| `Effects.RegisterEffect` | src/cpu/core.c:32-110 | a fetched register-register word puts what it computes in rd, goes on to the next word and changes nothing else |
| `Effects.ImmediateEffect` | src/cpu/core.c:111-150 | the same for immediates |
| `Effects.WordEffect` | src/cpu/core.c:152-231 | the 32-bit forms compute on the low halves and copy the sign up |
| `Effects.LoadEffect` | inc/cpu.h:33-131 | loads of bytes b0, b1, ...: LB is b0 below 128 and b0 - 256 otherwise, LBU is b0, likewise LH, LHU, LW, LWU and LD, from RAM or ROM; where nothing is mapped rd stays |
| `Effects.StoreEffect` | inc/cpu.h:133-168 | every byte of RAM after a store: a byte of rs2 inside the access, the old one elsewhere, and outside RAM no change at all |
| `Effects.BranchEffect` | src/cpu/core.c:251-298 | the six branches go to pc plus offset exactly when the integers or naturals in the registers compare so |
| `Effects.Complements` | src/cpu/core.c:257-296 | BEQ and BNE, BLT and BGE, BLTU and BGEU decide oppositely |
| `Effects.JalEffect` | src/cpu/core.c:316-324 | JAL goes to pc plus offset and leaves pc + 4 in rd |
| `Effects.JalrEffect` | src/cpu/core.c:325-335 | JALR goes to the even address at rs1 plus offset, rs1 as it was, and leaves pc + 4 in rd |
| `Effects.UpperEffect` | src/cpu/core.c:302-315 | LUI and AUIPC |
| `Effects.CsrEffect` | src/cpu/core.c:359-384 | the counter CSRs by number: cycles after the instruction's stalls, instructions without itself, high halves on RV32 |
| `Effects.EnvEffect` | src/cpu/core.c:344-358 | ECALL with 11 in a0 prints the low byte of a1; other calls, EBREAK and FENCE change pc only |
| `Latency.StallsAre` | inc/perf.h:24-58 | the stalls of an instruction, from the registers it reads and what the two instructions before it load and produce |
| `Latency.ThirdCost` | inc/perf.h:24-68 | after any two fetched instructions, the exact cycles of the third: one, its stalls, a fetch or an access across its alignment, a transfer made |
| `Machine.Emulator.PerfHazard` | inc/perf.h:34-40 | the load-use stall as a function of the pipeline record |
| `Machine.Emulator.PerfBranchHazard` | inc/perf.h:42-58 | the three branch stalls, up to three cycles at once |
| `Machine.Emulator.PerfCycle` | inc/perf.h:24-32 | one cycle, one instruction, and the record shifted by one |
| `Machine.Emulator.RomRead` | inc/cpu.h:33-81 | the loaded value, extended, and the alignment stall; all indices in bounds |
| `Machine.Emulator.RamRead` | inc/cpu.h:83-131 | the same for RAM |
| `Machine.Emulator.RamWrite` | inc/cpu.h:133-168 | RAM after the store, and the alignment stall; all indices in bounds |
| `Machine.Emulator.BusRead` | inc/bus.h:11-26 | the width-dependent guards admit exactly the accesses wholly inside RAM or ROM; others leave the register |
| `Machine.Emulator.BusWrite` | inc/bus.h:28-43 | the same for stores; ROM is never written |
| `Machine.Emulator.ExecRtype` | src/cpu/core.c:32-110 | the OP case executes the decoded instruction, aliased registers included |
| `Machine.Emulator.ExecImm` | src/cpu/core.c:111-150 | the OP-IMM case |
| `Machine.Emulator.ExecRtypeW` | src/cpu/core.c:152-206 | the OP-32 case |
| `Machine.Emulator.ExecImmW` | src/cpu/core.c:207-231 | the OP-IMM-32 case |
| `Machine.Emulator.ExecLoad` | src/cpu/core.c:233-242 | the LOAD case |
| `Machine.Emulator.ExecStore` | src/cpu/core.c:243-250 | the STORE case |
| `Machine.Emulator.ExecBranch` | src/cpu/core.c:251-298 | the BRANCH case: target and stall if and only if the condition holds |
| `Machine.Emulator.ExecUpper` | src/cpu/core.c:302-324 | the AUIPC, LUI and JAL cases |
| `Machine.Emulator.ExecJalr` | src/cpu/core.c:325-335 | the JALR case: the target is computed before the link is written |
| `Machine.Emulator.ExecSys` | src/cpu/core.c:336-387 | the SYSTEM case, with the stop decision and the console output |
| `Machine.Emulator.ProcessInstr` | src/cpu/core.c:18-398 | for every word and every state, the whole new state equals one step of the ISA, its exceptions apart, with the timing, and the result says whether the program stops |
| `Machine.Emulator.constructor` | src/cpu/csr.c:5-6 | the state at power-on: registers, RAM, pc and minstret zero, ROM the image, mcycle 4 |
| `Machine.Emulator.Fetch` | src/main.c:44-47 | the word at pc, zero where nothing is mapped, charged if misaligned |
| `Machine.Emulator.Run` | src/main.c:43-63 | the loop ends, in the state the recursive run function gives, with main's exit code |
| `Calls.CallReturns` | src/cpu/core.c:316-335 | a call by JAL or JALR and, after any steps that leave the link, a return through it: control is at pc + 4 and nothing else changes |
| `Calls.RunEnds` | src/main.c:43-51 | the loop stops at the cycle limit and at a zero word, ends at EBREAK and at ECALL with 10 in a0, and goes on from the next state at any other word and any other a0 |
| `Calls.ExitCall` | sdk/bsp/crt0.S:35-36 | addi a0, x0, 10 and ecall in ROM end the run as exited after exactly these two instructions, all else as it was |
| `Calls.RunToExit` | src/main.c:43-63 | there the emulator returns 0, with memory, output and the other registers unchanged |
| `Calls.MainEnds` | sdk/bsp/crt0.S:33-36 | main called through ra, returning after any number of steps, with the exit call behind: the run ends and keeps all that main left but a0 |
| `Runs.StepsAdd` | src/main.c:43-51 | runs compose |
| `Runs.CostBounds` | inc/perf.h:24-68 | a step costs 1 to 6 cycles |
| `Runs.StepAdvances` | src/main.c:43-51 | below the limit a step adds exactly its cost and no counter wraps |
| `Runs.RunLoopBounds` | src/main.c:43-51 | 4 + minstret <= mcycle <= MAX_CYCLES + 5 however the loop ends |
| `Runs.RunLoopIsSteps` | src/main.c:43-51 | the loop is a number of whole steps, at most MAX_CYCLES, and at most one more fetch |
| `Runs.ExecSound` | src/cpu/core.c:393-397 | every instruction keeps x0 zero, pc even, registers in range and ROM as it is |
| `Runs.ExecRamFrame` | src/cpu/core.c:243-250 | a RAM byte changes only inside the byte range of the instruction's one store |
| `Runs.WholeRun` | src/main.c:43-51 | after any number of steps from power-on: x0 is 0, pc even, ROM the image, minstret the number of steps |
| `Timing.CycleAccount` | inc/perf.h:24-68 | the mutable pipeline record is always a function of the last two instructions, and mcycle its start plus the cost of the trace |
| `Timing.TotalCostBounds` | inc/perf.h:24-68 | n instructions take at least n and at most 9n/2 cycles |
| `Worst.Round` | inc/perf.h:34-68 | one round of the costliest loop costs 3, 4, 6 and 5 cycles and leaves the machine as it was |
| `Worst.WorstCase` | inc/perf.h:24-68 | the bound of 9/2 is attained by runs: for any number of rounds, 4 instructions each in exactly 18 cycles, with the state unchanged |
| `Worst.HeadExists` | inc/perf.h:24-68 | there is a machine at the head of that loop |
| `Worst.WorstRun` | inc/perf.h:24-68 | from power-on, with a given image, runs of every length 4k + 2 cost 9/2 of their instructions less 6 cycles |
| `Alignment.ExecAligned` | src/cpu/core.c:251-335 | from an aligned pc, an instruction leads to an aligned pc if and only if the ISA would not raise instruction-address-misaligned on it |
| `Alignment.RunAligned` | src/main.c:43-51 | over runs of any length from an aligned pc: pc stays aligned if and only if the ISA would raise at no step |
| `Alignment.NoFetchStall` | inc/bus.h:11-26 | then no fetch stalls, the next one included |
| `Alignment.ConformingCycles` | inc/perf.h:24-68 | n instructions during which the ISA would not raise take at most 7n/2 cycles |
| `Alignment.ConformingRun` | src/main.c:43-63 | for a whole run of main without such a step, mcycle is 4 plus the cost of the trace alone, within that bound |
| `Alignment.JumpToTen` | src/cpu/core.c:316-324 | a jump from 4 to 10: the ISA would raise, the emulator goes there and the next fetch stalls |
| `Timing.RunCycles` | inc/perf.h:24-68 | from power-on mcycle is 4 plus the cost of the trace, between minstret and 9/2 minstret |
| `Timing.RunLoopAccount` | src/main.c:43-51 | the same account for a whole program run, to whichever end |
| `Timing.HighHalvesZero` | inc/csr.h:31-37 | within the loop the high-half CSRs read 0 |
| `Timing.HighHalvesInRun` | inc/csr.h:31-37 | so they do in every state that a run reaches |
| `Timing.ExecIgnoresCycles` | src/cpu/core.c:359-384 | only an instruction that reads a cycle CSR depends on the cycle count |
| `Timing.NonInterference` | src/cpu/core.c:18-398 | machines that differ in cycles and pipeline record only stay equal in everything else while no cycle CSR is read |
| `WForms.SextBitwise` | src/cpu/core.c:96-104 | and, or, xor commute with sign extension |
| `WForms.AluSimulates` | src/cpu/core.c:32-206 | W forms of the arithmetic, and the plain forms of the rest, commute with sign extension |
| `WForms.CondSimulates` | src/cpu/core.c:257-296 | all six comparisons decide alike on sign-extended operands |
| `WForms.ExtendSimulates` | inc/cpu.h:35-50 | LB, LH, LW, LBU and LHU keep the relation |
| `WForms.AuipcSimulatesIff` | src/cpu/core.c:302-308 | AUIPC keeps the relation if and only if its result is below 2^31 |
| `WForms.AuipcAtTheBound` | src/cpu/core.c:302-308 | a state and an AUIPC at the bound after which the machines differ |
| `Programs.HighProductSimulatesIff` | src/cpu/core.c:45-53 | each high product keeps the relation if and only if the signed product is within 2^32 and the high word fits 32 bits |
| `Programs.HighProductsDiffer` | src/cpu/core.c:45-53 | operands at which they do not |
| `Programs.InstructionSimulates` | src/cpu/core.c:32-387 | any defined RV32 instruction and its translation keep the machines related, branch alike and stop alike, under the exact conditions of AUIPC and the high products, and counters below 2^31 where they are read |
| `Programs.TwinStep` | src/cpu/core.c:18-398 | one step of both machines from their own ROMs, timing and counters included, is alike |
| `Programs.ProgramSimulates` | src/cpu/core.c:18-398 | a program in one ROM and its translation in the other, alike elsewhere, keep the machines in step for any number of fetched and decoded instructions |
| `Programs.RunSimulates` | src/main.c:43-51 | the loop of main ends alike on both, after the same instructions and cycles, with the same memory and output |
| `Programs.PowerOn` | src/main.c:43-51 | so do whole runs from power-on |
| `Programs.TranslateLegal` | src/cpu/core.c:18-398 | the translation of an instruction that the manual defines for RV32 is one that it defines for RV64 |
| `Programs.Lay` | inc/riscv.h:78-99 | any layout of RV32 instructions that do not overlap can be encoded over any ROM image, and its translation over the same, all other bytes being the image's |
| `Programs.HeldCarry` | src/cpu/core.c:302-308 | such images meet the condition of the simulation if and only if every AUIPC has its result below 2^31 |
| `Programs.PrinterRuns` | src/main.c:43-63 | a program whose images meet every condition of the whole-run simulation: both machines print its H and exit by ecall |
| `Guest.CopyLoop` | sdk/bsp/crt0.S:15-22 | from the loop head, n words take exactly 6n + 1 instructions and 8n + 2 cycles plus the first stall; RAM holds the ROM bytes there and is unchanged elsewhere; the pipeline record is left as stated |
| `Guest.ZeroLoop` | sdk/bsp/crt0.S:26-31 | m words take exactly 4m + 1 instructions and 5m + 2 cycles plus the first stall; they are zero and all else is unchanged; the pipeline record is left as stated |
| `Guest.LoopWords` | sdk/bsp/crt0.S:15-31 | the machine words of the two loops |
| `Counters.QueryPass` | sdk/librv/librv.h:13-20 | one pass reads at three consecutive instructions and retries if and only if the high halves differ |
| `Counters.HalvesAgree` | sdk/librv/librv.h:13-22 | the high halves agree exactly when the low half does not wrap between them, and then the halves make up the middle value |
| `Counters.QueryCycles` | sdk/librv/librv.h:10-23 | from any counter value, one or two passes, and the result is mcycle at the accepted low-half read |
| `Counters.QueryInstructions` | sdk/librv/librv.h:25-38 | the same for minstret |
| `Output.DepositIsPrefix` | sdk/librv/printf.c:391-412 | a buffer holds the longest prefix of the output that fits, and its old contents beyond |
| `Output.AcceptedIsPrefix` | sdk/librv/printf.c:391-412 | a character function receives the same prefix |
| `Output.Gadget.OnBuffer` | sdk/librv/printf.c:449-459 | a buffer gadget: capacity cut to INT_MAX, none without a buffer |
| `Output.Gadget.OnFunction` | sdk/librv/printf.c:461-468 | a function gadget |
| `Output.Gadget.Put` | sdk/librv/printf.c:391-412 | one more character of output; the position counts it whether or not it is kept |
| `Output.Gadget.Terminate` | sdk/librv/printf.c:415-426 | a terminator after the text or in the last place, and nothing else |
| `IntegerText.OutRev` | sdk/librv/printf.c:511-534 | the buffer in reverse between its padding blanks, the trailing ones counted by the wrapping position |
| `IntegerText.PadNumber` | sdk/librv/printf.c:545-558 | zeros up to the width and to the precision while there is room |
| `IntegerText.AddPrefix` | sdk/librv/printf.c:566-592 | zeros given back and the prefix written while there is room |
| `IntegerText.PrintIntegerFinalization` | sdk/librv/printf.c:541-607 | the finished number in its field; no index reaches 32 |
| `IntegerText.DigitLoop` | sdk/librv/printf.c:634-638 | the digits of the value, least significant first, at most 32 |
| `IntegerText.PrintInteger` | sdk/librv/printf.c:610-642 | all of the conversion's output, as a function of its arguments |
| `C99.StartingDigits` | sdk/librv/printf.c:612-639 | the buffered digits, reversed and filled to the precision, are the standard's digits |
| `C99.DecimalNumber` | sdk/librv/printf.c:541-607 | d, i, u: within 32 characters the number built is the standard's |
| `C99.OctalNumber` | sdk/librv/printf.c:560-592 | o: the same, the alternative form's zero coming only where no other zero does |
| `C99.HexNumber` | sdk/librv/printf.c:566-592 | x, X: the same, padding zeros taken back for the prefix |
| `C99.Conformance` | sdk/librv/printf.c:541-642 | for every conversion, flags, width, precision and 64-bit value: the output is that of section 7.19.6.1 if and only if the conversion fits |
| `Shapes.IntegerShape` | sdk/librv/printf.c:541-642 | the standard's text of an integer: its sign, its prefix, zeros and digits that read back as its magnitude in base 8, 10 or 16 in the letters of the specifier; how many zeros; its field |
| `Shapes.TypeShape` | sdk/librv/printf.c:1294-1354 | an integer argument is the value of the named type of 8, 16, 32 or 64 bits that it agrees with in those bits |
| `C99.WrittenConformance` | sdk/librv/printf.c:500-642 | with the width and the precision as they are written in the format: if and only if the conversion fits and both are below 2^32; never longer |
| `C99.ConformsWithin` | sdk/librv/printf.c:541-642 | so it is for every precision up to 30, with a width up to 32 where zeros fill it and any width otherwise |
| `C99.NeverLonger` | sdk/librv/printf.c:541-642 | the output is never longer than the standard's |
| `C99.Precision33` | sdk/librv/printf.c:556-558 | %.33d of 1 comes out with 32 digits |
| `ReadBack.ReadDigits` | sdk/librv/printf.c:634-638 | the digit buffer turned round denotes the last digits of the value |
| `ReadBack.ReadsBack` | sdk/librv/printf.c:610-642 | in any base the printed text reads back as the value modulo base^32 |
| `ReadBack.PrintedReadsBack` | sdk/librv/printf.c:610-642 | so bases 8, 10 and 16 give back every 64-bit value, base 2 its low 32 bits |
| `ReadBack.SpecifiersReadBack` | sdk/librv/printf.c:1357-1390 | d, i and u print in base 10, o in base 8, x and X in base 16, b in base 2: read back so, the output is the value |
| `ReadBack.HexLetters` | sdk/librv/printf.c:634-638 | the letters of x are a to f, those of X are A to F |
| `Shapes.BinaryShape` | sdk/librv/printf.c:566-592 | b in alternative form has 0b before its digits |
| `Directives.ParseFlags` | sdk/librv/printf.c:1207-1220 | the flags are those that occur in the longest run of flag characters |
| `Directives.Atou` | sdk/librv/printf.c:500-507 | the number that the longest run of digits denotes, modulo 2^32 |
| `Directives.EvaluatePrecision` | sdk/librv/printf.c:1267-1291 | precision digits, a negative one ignored, or an argument |
| `Directives.EvaluateLength` | sdk/librv/printf.c:1294-1354 | the length modifier, with the type sizes of ILP32 or LP64 |
| `Directives.ParseDirective` | sdk/librv/printf.c:1238-1354 | a whole directive, or that the loop returns at a terminator |
| `Completeness.ParseIs` | sdk/librv/printf.c:1238-1354 | where the parser comes to, how many arguments it takes, and whether it meets the terminator, from the characters alone |
| `Completeness.CutOff` | sdk/librv/printf.c:1207-1354 | the terminator is taken for a specifier if and only if the format ends inside the directive after a flag or a digit |
| `Grammar.ParseAgrees` | sdk/librv/printf.c:1207-1354 | wherever the standard's grammar has a conversion specification, the parser reads the same one, its numbers modulo 2^32 |
| `DirectiveText.SpecRoundTrip` | sdk/librv/printf.c:1207-1354 | a printed directive, stars included, wherever it stands, is by the standard's grammar what it was printed from |
| `DirectiveText.DirectiveRoundTrip` | sdk/librv/printf.c:1207-1354 | the parser reads it so too, numbers modulo 2^32, takes the arguments of its stars and ends at its specifier |
| `DirectiveText.DashedPrecision` | sdk/librv/printf.c:1267-1277 | a precision that a dash begins is none, its digits are skipped |
| `Format.Strnlen` | sdk/librv/printf.c:481-486 | the length up to a maximum |
| `Format.PrintChar` | sdk/librv/printf.c:1468-1486 | a character in its field |
| `Format.PrintString` | sdk/librv/printf.c:1488-1518 | a string cut to the precision, in its field |
| `Format.NullTexts` | sdk/librv/printf.c:1488-1530 | a null pointer prints (null) by s and (nil) by p |
| `Format.AbsIsMagnitude` | sdk/librv/printf.c:365 | the wrapping absolute value is the magnitude of every 64-bit value, the least one included |
| `Format.PrintIntegerConversion` | sdk/librv/printf.c:1357-1444 | the argument taken at its type and printed |
| `Format.PrintConversion` | sdk/librv/printf.c:1356-1560 | the text of any specifier and the argument it leaves; unknown ones print themselves |
| `Format.RendersIff` | sdk/librv/printf.c:1222-1562 | a format has a text if and only if it is complete and every star and specifier has an argument of its kind |
| `Format.RunsPastIff` | sdk/librv/printf.c:1222-1562 | with its arguments, the loop goes past the terminator if and only if the format is not complete |
| `Format.PercentFive` | sdk/librv/printf.c:1244-1254 | it does so in %5 |
| `Format.FormatStringLoop` | sdk/librv/printf.c:1222-1562 | for every complete format with its arguments, the loop terminates at the terminator and outputs exactly the format's text |
| `Composition.LiteralRenders` | sdk/librv/printf.c:1229-1239 | literal text comes out as it is, by the code and by the standard, and the rest follows |
| `Composition.DirectiveRenders` | sdk/librv/printf.c:1240-1560 | a printed directive, stars included, comes out as the text of its conversion of its own arguments, and the rest follows |
| `Composition.WrittenFormat` | sdk/librv/printf.c:1222-1562 | a format written from literal text and directives comes out as the texts of its parts in order |
| `Composition.WrittenStandard` | sdk/librv/printf.c:1222-1562 | the standard gives such a format the standard's texts of its parts in order |
| `Composition.WrittenConforms` | sdk/librv/printf.c:1222-1562 | a format written from parts whose texts the standard defines is complete, has its arguments, and comes out as those texts if its parts fit; with strings up to INT_MAX characters, only if |
| `Format.VsnprintfImpl` | sdk/librv/printf.c:1565-1578 | the text delivered and terminated, the length returned as an int |
| `Format.Vsnprintf` | sdk/librv/printf.c:1588-1592 | the length of the whole text whatever the capacity; the buffer holds what fits, terminated, and nothing beyond is written |
| `Format.Vprintf` | sdk/librv/printf.c:1582-1586 | the function receives the text, up to INT_MAX characters |
| `Format.CapacityCut` | sdk/librv/printf.c:449-459 | cutting the capacity to INT_MAX differs from section 7.19.6.5 in exactly one case |
| `Format.LastLetterLost` | sdk/librv/printf.c:449-459 | that case: INT_MAX letters in a buffer one larger |
| `Standard.CharConformsIff` | sdk/librv/printf.c:1468-1486 | c is the standard's if and only if its width is below 2^32; never longer |
| `Shapes.FieldShape` | sdk/librv/printf.c:511-534 | a field is as wide as asked or as its text: blanks after it or before it, and nothing else |
| `Shapes.CharShape` | sdk/librv/printf.c:1468-1486 | c prints the character of its argument as an unsigned char, in a field |
| `Shapes.StringShape` | sdk/librv/printf.c:1488-1518 | the standard's text of a string is its beginning, whole or as long as the precision, in a field |
| `Standard.StringConformsIff` | sdk/librv/printf.c:1488-1518 | for every string, width and precision as written: s is the standard's if and only if the width is below 2^32, the precision too or the string whole even modulo it, and the length counted; or blanks make up for what is missed; never longer if counted |
| `Standard.PointerConforms` | sdk/librv/printf.c:1520-1530 | p is in the field that the standard asks for if and only if the width is no more than its own length |
| `Standard.ConversionConforms` | sdk/librv/printf.c:1356-1560 | any conversion but n that the standard defines leaves the same argument and is the standard's if and only if it fits; with strings up to INT_MAX characters, never longer |
| `Standard.FormatConformsIff` | sdk/librv/printf.c:1222-1562 | wherever the standard defines a text, without n and with strings up to INT_MAX characters, the code has one, never longer, and the same if and only if all conversions fit |
| `Standard.FormatConforms` | sdk/librv/printf.c:1222-1562 | with any strings, it is if they all fit |
| `Standard.WrappedPrecision` | sdk/librv/printf.c:500-507 | a precision of 2^32 cuts abc to nothing where the standard writes it whole |
| `Standard.PercentN` | sdk/librv/printf.c:1539-1560 | %n prints an n where the standard writes nothing |
| `Standard.PointerTwenty` | sdk/librv/printf.c:1520-1530 | %20p is short of the field that the standard asks for |
| `Standard.BlanksTrade` | sdk/librv/printf.c:1488-1518 | with a longer string, two conversions that do not fit can come out right together |
| `Standard.PointerText` | sdk/librv/printf.c:1520-1530 | a plain %p is 0x and two hexadecimal digits for each byte of the address |

## Left out

- Floating-point conversions: the shipped configuration compiles them out; their specifiers print themselves, as modelled.
- The `%n` specifier and the MSVC size specifiers: not compiled in either; they print themselves. The standard's side of `%n` writes no characters; what it stores is not modelled.
- On the standard's side, floating point, wide characters, the length modifier L, and every combination whose effect section 7.19.6.1 leaves undefined: such formats have no text there. Nor has a null string, which the code prints as (null).
- Standard.PointerConforms: the text of a pointer is the implementation's choice, so only its field is compared.
- `va_list`: arguments are a typed sequence, and an integer read at a type takes that type's bits.
- `sprintf` and `vsprintf`: their nominal capacity of INT_MAX exceeds the real buffer, which the gadget's array does not express.
- A `%s` argument without a terminator inside its precision: strings are terminated in the model, so the one character read past the precision is not seen.
- A `%p` of a string: strings have no numeric address here.
- Loading the ROM file, the clock, warnings and the closing messages: ROM is any image, and console output is the sequence of bytes that ECALL prints (the low byte of a1).
- The compiler intrinsics and 128-bit integers of `inc/mul.h`: the portable fallback and the double-width form are modelled.
- `write_csr` and FENCE: they do nothing in the source, and nothing here.
- Assembler expansion of `la` and `call`: the start-up loops begin at their heads with the registers loaded.
- The counter queries on RV64: the high-half CSRs exist on RV32 only.
- Exceptions: the emulator raises none. Where the ISA would, the model does what the emulator does; for misaligned transfers `Alignment` says when that is, for undefined words and unmapped accesses nothing is proved about the difference. A translated program has no undefined words.
- Build files, the stdint template and the test programs.

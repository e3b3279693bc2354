/** Whole RV32 programs on the RV64 machine: two machines, one with a program in ROM and one
    with its translation to W forms, run in step to the same end in the same cycles. */
module Programs {
  import opened Words
  import opened Arch
  import opened Isa
  import opened Semantics
  import opened Runs
  import opened WForms
  import Memory
  import MulDiv

  // ------------------------------------------------------------- high products

  /** A factor or nothing. */
  function If(b: bool, x: int): int {
    if b then x else 0
  }

  /** What an unsigned reading of negative operands adds to the high word of a product. */
  function Correction(op: AluOp, a: nat, b: nat): int {
    var x, y := Signed(TWO32, a), Signed(TWO32, b);
    if op.MULHU? then If(x < 0, y) + If(y < 0, x)
    else if op.MULHSU? then If(y < 0, x)
    else 0
  }

  /** The high product of two words comes out alike on both widths: the signed product is
      between -2^32 and 2^32, and the high word that RV64 gives fits 32 bits. */
  predicate HighAlike(op: AluOp, a: nat, b: nat) {
    var xy := Signed(TWO32, a) * Signed(TWO32, b);
    && -TWO32 <= xy < TWO32
    && -0x8000_0000 <= (if xy < 0 then -1 else 0) + Correction(op, a, b) < 0x8000_0000
  }

  lemma HighSigned(m: int, x: int, y: int, b: int)
    requires 0 < m && b == y + If(y < 0, m)
    ensures x * b / m == x * y / m + If(y < 0, x)
  {
    MulDiv.UnsignedHighHalf(m, x, y, 0, if y < 0 then 1 else 0);
  }

  lemma HighUnsigned(m: int, x: int, y: int, a: int, b: int)
    requires 0 < m && a == x + If(x < 0, m) && b == y + If(y < 0, m)
    ensures Wrap(m, a * b / m) == Wrap(m, x * y / m + (If(x < 0, y) + If(y < 0, x)))
  {
    hide Wrap;
    var sa, sb := if x < 0 then 1 else 0, if y < 0 then 1 else 0;
    MulDiv.UnsignedHighHalf(m, x, y, sa, sb);
    WrapPlus(m, x * y / m + (If(x < 0, y) + If(y < 0, x)), sa * sb);
  }

  /** The high half of m-ary two's-complement operands, from that of their signed values. */
  lemma HighHalf(m: int, op: AluOp, x: int, y: int, a: nat, b: nat, t: int)
    requires op.MULH? || op.MULHSU? || op.MULHU?
    requires m == TWO32 || m == TWO64
    requires a < m && b < m && x == Signed(m, a) && y == Signed(m, b)
    requires t == if op.MULHU? then If(x < 0, y) + If(y < 0, x) else if op.MULHSU? then If(y < 0, x) else 0
    ensures AluAt(m, if m == TWO32 then 32 else 64, op, a, b) == Wrap(m, x * y / m + t)
  {
    hide Wrap;
    if op.MULHSU? {
      HighSigned(m, x, y, b);
    } else if op.MULHU? {
      HighUnsigned(m, x, y, a, b);
    }
  }

  lemma SameWord(u: int, v: int)
    requires Wrap(TWO64, u) == Wrap(TWO64, v) && -TWO64 < u - v < TWO64
    ensures u == v
  {
    var k := u / TWO64 - v / TWO64;
    assert u - v == k * TWO64;
  }

  /** When the high words of both widths agree up to sign extension. */
  lemma HighWords(h32: int, h64: int, t: int)
    requires -0x4000_0000 <= h32 <= 0x4000_0000 && -1 <= h64 <= 0 && -TWO32 <= t <= TWO32
    ensures Wrap(TWO64, h64 + t) == Sext(Wrap(TWO32, h32 + t))
            <==> h32 == h64 && -0x8000_0000 <= h64 + t < 0x8000_0000
  {
    var v := Signed(TWO32, Wrap(TWO32, h32 + t));
    var k := (h32 + t - v) / TWO32;
    assert h32 + t - v == k * TWO32;
    if Wrap(TWO64, h64 + t) == Wrap(TWO64, v) {
      SameWord(h64 + t, v);
    }
    if h32 == h64 && -0x8000_0000 <= h64 + t < 0x8000_0000 {
      SignedWrap(TWO32, h64 + t);
    }
  }

  lemma ProductBound(x: int, y: int)
    requires -0x8000_0000 <= x < 0x8000_0000 && -0x8000_0000 <= y < 0x8000_0000
    ensures -0x4000_0000_0000_0000 <= x * y <= 0x4000_0000_0000_0000
  {
    var u, v := if x < 0 then -x else x, if y < 0 then -y else y;
    MulDiv.ProductAtMost(u, v, u * v, 0x8000_0000, 0x4000_0000_0000_0000);
    MulDiv.SignedProducts(u, v);
  }

  lemma HighsOf(z: int)
    requires -0x4000_0000_0000_0000 <= z <= 0x4000_0000_0000_0000
    ensures -0x4000_0000 <= z / TWO32 <= 0x4000_0000
    ensures z / TWO64 == if z < 0 then -1 else 0
    ensures z / TWO32 == z / TWO64 <==> -TWO32 <= z < TWO32
  {
  }

  /** The high words of a product of two words, as numbers. */
  lemma ProductHighs(x: int, y: int)
    requires -0x8000_0000 <= x < 0x8000_0000 && -0x8000_0000 <= y < 0x8000_0000
    ensures -0x4000_0000 <= x * y / TWO32 <= 0x4000_0000
    ensures x * y / TWO64 == if x * y < 0 then -1 else 0
    ensures x * y / TWO32 == x * y / TWO64 <==> -TWO32 <= x * y < TWO32
  {
    ProductBound(x, y);
    HighsOf(x * y);
  }

  lemma WordRange(a: nat)
    requires a < TWO32
    ensures -0x8000_0000 <= Signed(TWO32, a) < 0x8000_0000 && Sext(a) < TWO64
  {
  }

  /** There are no W forms of the high products; the plain ones keep the relation exactly
      where they are alike. */
  lemma HighProductSimulatesIff(op: AluOp, a: nat, b: nat)
    requires (op.MULH? || op.MULHSU? || op.MULHU?) && a < TWO32 && b < TWO32
    ensures AluAt(TWO64, 64, op, Sext(a), Sext(b)) == Sext(AluAt(TWO32, 32, op, a, b)) <==> HighAlike(op, a, b)
  {
    hide Sext, AluAt, Wrap, Signed;
    var x, y, t := Signed(TWO32, a), Signed(TWO32, b), Correction(op, a, b);
    SextShape(a);
    SextShape(b);
    WordRange(a);
    WordRange(b);
    HighHalf(TWO32, op, x, y, a, b, t);
    HighHalf(TWO64, op, x, y, Sext(a), Sext(b), t);
    ProductHighs(x, y);
    HighWords(x * y / TWO32, x * y / TWO64, t);
  }

  /** One that fails: the high word of 2^16 times 2^16 is 1 on RV32 and 0 on RV64. */
  lemma HighProductsDiffer(op: AluOp)
    requires op.MULH? || op.MULHSU? || op.MULHU?
    ensures AluAt(TWO32, 32, op, 0x1_0000, 0x1_0000) == 1
    ensures AluAt(TWO64, 64, op, Sext(0x1_0000), Sext(0x1_0000)) == 0
  {
    SextShape(0x1_0000);
    WrapSmall(TWO32, 1);
    WrapSmall(TWO64, 0);
  }

  // --------------------------------------------------------- one instruction more

  predicate IsHigh(op: AluOp) {
    op.MULH? || op.MULHSU? || op.MULHU?
  }

  /** The RV32 instructions that a program may have at an address: all but those that no
      manual defines, and AUIPC only where its result is below 2^31. */
  predicate PortableAt(a: nat, i: Instr) {
    || Portable(i) || i.Csr? || (i.Alu? && IsHigh(i.op))
    || (i.Auipc? && Fits(i.imm, TWO32) && (i.rd == 0 || a + i.imm < 0x8000_0000))
  }

  /** Counters that both widths read alike. */
  predicate SmallCounters(cycles: nat, instructions: nat) {
    cycles < 0x8000_0000 && instructions < 0x8000_0000
  }

  lemma CsrSimulates(mext: bool, csr: nat, x: nat, y: nat)
    requires SmallCounters(x, y)
    ensures ReadCsr(Rv64(mext), csr, x, y) == Sext(ReadCsr(Rv32(mext), csr, x, y))
  {
    hide Sext;
    SextShape(0);
    SextShape(x);
    SextShape(y);
    WrapSmall(TWO64, x);
    WrapSmall(TWO64, y);
  }

  lemma AuipcSimulates(mext: bool, i: Instr, s: State, s': State, x: nat, y: nat)
    requires Sound(Rv32(mext), s) && Related(s, s') && Mapped(s.pc, 4)
    requires i.Auipc? && Fits(i.imm, TWO32) && (i.rd == 0 || s.pc + i.imm < 0x8000_0000)
    ensures Related(Exec(Rv32(mext), i, s, x, y), Exec(Rv64(mext), i, s', x, y))
  {
    hide Sext, Wrap, Mapped, Close;
    if i.rd == 0 {
      NextSimulates(mext, Fence, s, s');
      CloseSame(s.pc + 4);
    } else {
      AuipcSimulatesIff(mext, i.rd, i.imm, s, s', x, y, x, y);
    }
  }

  lemma CsrExecSimulates(mext: bool, i: Instr, s: State, s': State, x: nat, y: nat)
    requires Sound(Rv32(mext), s) && Related(s, s') && Mapped(s.pc, 4) && i.Csr? && SmallCounters(x, y)
    ensures Related(Exec(Rv32(mext), i, s, x, y), Exec(Rv64(mext), i, s', x, y))
  {
    hide Sext, Wrap, Mapped, Close, ReadCsr;
    NextSimulates(mext, Fence, s, s');
    CloseSame(s.pc + 4);
    CsrSimulates(mext, i.csr, x, y);
    SetRegSimulates(s, s', i.rd, ReadCsr(Rv32(mext), i.csr, x, y));
  }

  lemma HighExecSimulates(mext: bool, i: Instr, s: State, s': State, x: nat, y: nat)
    requires Sound(Rv32(mext), s) && Related(s, s') && Mapped(s.pc, 4) && i.Alu? && IsHigh(i.op)
    requires HighAlike(i.op, s.regs[i.rs1], s.regs[i.rs2])
    ensures Related(Exec(Rv32(mext), i, s, x, y), Exec(Rv64(mext), i, s', x, y))
  {
    hide Sext, Wrap, Mapped, Close, AluAt, HighAlike;
    NextSimulates(mext, Fence, s, s');
    CloseSame(s.pc + 4);
    HighProductSimulatesIff(i.op, s.regs[i.rs1], s.regs[i.rs2]);
    SetRegSimulates(s, s', i.rd, AluOf(Rv32(mext), i, s));
  }

  /** What an instruction asks of the state: small counters to read, alike high products. */
  predicate Tame(i: Instr, s: State, cycles: nat, instructions: nat) {
    && (i.Csr? ==> SmallCounters(cycles, instructions))
    && (i.Alu? && IsHigh(i.op) ==> HighAlike(i.op, s.regs[i.rs1], s.regs[i.rs2]))
  }

  /** One instruction of a program and its translation keep the machines related. */
  lemma InstructionSimulates(mext: bool, i: Instr, s: State, s': State, x: nat, y: nat)
    requires Sound(Rv32(mext), s) && Related(s, s') && Mapped(s.pc, 4) && PortableAt(s.pc, i)
    requires Tame(i, s, x, y)
    ensures Related(Exec(Rv32(mext), i, s, x, y), Exec(Rv64(mext), Translate(i), s', x, y))
    ensures Taken(Rv32(mext), i, s) == Taken(Rv64(mext), Translate(i), s')
    ensures Stops(i, s) == Stops(Translate(i), s')
  {
    hide Exec, Related, CondHolds, Portable, Sound, HighAlike;
    if i.Alu? && IsHigh(i.op) {
      HighExecSimulates(mext, i, s, s', x, y);
    } else if Portable(i) {
      StepSimulates(mext, i, s, s', x, y, x, y);
    } else if i.Csr? {
      CsrExecSimulates(mext, i, s, s', x, y);
    } else {
      AuipcSimulates(mext, i, s, s', x, y);
    }
  }

  // ----------------------------------------------------------- programs in memory

  type Program = map<nat, Instr>

  /** The bytes that instructions occupy. */
  predicate InProgram(p: Program, j: nat) {
    exists a: nat :: a in p && a <= j < a + 4
  }

  /** Two images: one with the program, one with its translation, the same elsewhere. */
  predicate Carry(mext: bool, p: Program, rom: Rom, rom': Rom) {
    && (forall a :: a in p ==>
          && a + 4 <= ROM_SIZE && PortableAt(a, p[a])
          && Decode(Rv32(mext), ReadLE(rom, a, 4)) == p[a]
          && Decode(Rv64(mext), ReadLE(rom', a, 4)) == Translate(p[a]))
    && (forall j: nat :: j < ROM_SIZE && !InProgram(p, j) ==> rom[j] == rom'[j])
  }

  /** The machines agree but for the width of their registers and the code in ROM: timing,
      counters and console included. */
  predicate Twins(mext: bool, p: Program, c: Core, c': Core) {
    && Sound(Rv32(mext), c.st)
    && SameRegs(c.st.regs, c'.st.regs) && Close(c.st.pc, c'.st.pc)
    && c'.st.ram == c.st.ram && c'.st.console == c.st.console && Carry(mext, p, c.st.rom, c'.st.rom)
    && c'.perf == c.perf && c'.mcycle == c.mcycle && c'.minstret == c.minstret
  }

  predicate HighAlikeAt(i: Instr, s: State)
    requires i.Alu?
  {
    HighAlike(i.op, s.regs[i.rs1], s.regs[i.rs2])
  }

  predicate ReadsData(mext: bool, p: Program, i: Instr, s: State)
    requires i.Load?
  {
    var addr, n := Address(Rv32(mext), s, i.rs1, i.imm), Bytes(i.mem);
    InRom(addr, n) ==> forall j :: addr <= j < addr + n ==> !InProgram(p, j)
  }

  /** The next step is one of the program's: pc is at an instruction, a load does not read
      the code as data, and a high product is alike on both widths. */
  predicate Proceeds(mext: bool, p: Program, c: Core) {
    && c.st.pc in p
    && (p[c.st.pc].Load? ==> ReadsData(mext, p, p[c.st.pc], c.st))
    && (p[c.st.pc].Alu? && IsHigh(p[c.st.pc].op) ==> HighAlikeAt(p[c.st.pc], c.st))
  }

  // --------------------------------------------------------------- the ROMs apart

  /** Only a load can tell two ROMs apart. */
  lemma OtherRom(cfg: Config, i: Instr, s: State, rom: Rom, x: nat, y: nat)
    requires i.Load? ==>
               var addr, n := Address(cfg, s, i.rs1, i.imm), Bytes(i.mem);
               InRom(addr, n) ==> ReadLE(rom, addr, n) == ReadLE(s.rom, addr, n)
    ensures Exec(cfg, i, s.(rom := rom), x, y) == Exec(cfg, i, s, x, y).(rom := rom)
    ensures Taken(cfg, i, s.(rom := rom)) == Taken(cfg, i, s) && Stops(i, s.(rom := rom)) == Stops(i, s)
  {
    hide AluAt, AluWAt, Wrap, ReadCsr, Extend, ReadLE, WriteLE, CondHolds;
  }

  lemma ZeroIsUnknown(mext: bool)
    ensures Decode(Rv32(mext), 0) == Unknown && Decode(Rv64(mext), 0) == Unknown
  {
    hide ImmI, ImmS, ImmB, ImmU, ImmJ, PlainOp, MulDivOp, ImmOp, WordOp, LoadOp, StoreOp, CondOf, ImmOperand;
    assert Split(0).op == 0;
  }

  lemma NeverUnknown(i: Instr, a: nat)
    requires PortableAt(a, i)
    ensures i != Unknown && Translate(i) != Unknown
  {
  }

  /** At an instruction both machines fetch and decode it, from the same address. */
  lemma TwinFetch(mext: bool, p: Program, c: Core, c': Core)
    requires Twins(mext, p, c, c') && c.st.pc in p
    ensures var i := p[c.st.pc];
            && Current(Rv32(mext), c) == i && Current(Rv64(mext), c') == Translate(i)
            && FetchWord(c.st) != 0 && FetchWord(c'.st) != 0
            && c'.st.pc == c.st.pc && Mapped(c.st.pc, 4) && FetchStall(c'.st) == FetchStall(c.st)
            && PortableAt(c.st.pc, i)
  {
    hide Sext, Sound, ReadLE, Decode, Portable;
    CloseMapped(c.st.pc, c'.st.pc, 4);
    ZeroIsUnknown(mext);
    NeverUnknown(p[c.st.pc], c.st.pc);
  }

  /** The timing model sees the same registers in an instruction and in its translation. */
  lemma SameTiming(i: Instr, perf: Perf)
    ensures HazardCycles(perf, Translate(i)) == HazardCycles(perf, i) && Retire(perf, Translate(i)) == Retire(perf, i)
  {
    hide LoadUseCycles, BranchUseCycles;
  }

  lemma SameStall(mext: bool, i: Instr, s: State, s': State)
    requires Sound(Rv32(mext), s) && SameRegs(s.regs, s'.regs)
    requires (i.Load? || i.Store?) ==> Fits(i.imm, 0x1000)
    ensures DataStall(Rv64(mext), Translate(i), s') == DataStall(Rv32(mext), i, s)
  {
    hide Sext, Close, Wrap;
    if i.Load? || i.Store? {
      AddressSimulates(s.regs[i.rs1], i.imm);
      CloseMapped(Address(Rv32(mext), s, i.rs1, i.imm), Address(Rv64(mext), s', i.rs1, i.imm), Bytes(i.mem));
    }
  }

  lemma CloseRom(x: nat, y: nat, n: nat)
    requires Close(x, y) && InRom(y, n)
    ensures x == y
  {
  }

  /** Where a load reads no code, both ROMs hold the same. */
  lemma SameData(mext: bool, p: Program, i: Instr, s: State, s': State)
    requires Sound(Rv32(mext), s) && SameRegs(s.regs, s'.regs) && Carry(mext, p, s.rom, s'.rom)
    requires i.Load? && Fits(i.imm, 0x1000) && ReadsData(mext, p, i, s)
    ensures var addr, n := Address(Rv64(mext), s', i.rs1, i.imm), Bytes(i.mem);
            InRom(addr, n) ==> ReadLE(s.rom, addr, n) == ReadLE(s'.rom, addr, n)
  {
    hide Sext, Wrap, ReadLE, Decode, PortableAt, InProgram;
    var addr, addr', n := Address(Rv32(mext), s, i.rs1, i.imm), Address(Rv64(mext), s', i.rs1, i.imm), Bytes(i.mem);
    AddressSimulates(s.regs[i.rs1], i.imm);
    if InRom(addr', n) {
      CloseRom(addr, addr', n);
      Memory.ReadDepends(s.rom, s'.rom, addr, n);
    }
  }

  lemma SmallSeen(c: Core, i: Instr)
    requires c.mcycle + 4 < 0x8000_0000
    ensures Tick(Fetched(c).mcycle, HazardCycles(c.perf, i)) <= c.mcycle + 4
  {
  }

  lemma PortableShape(i: Instr, a: nat)
    requires PortableAt(a, i)
    ensures FitsBuild(Rv32(false), i) && FitsBuild(Rv32(true), i)
    ensures i.Load? || i.Store? ==> Fits(i.imm, 0x1000)
    ensures (Translate(i).Load? <==> i.Load?) && (i.Load? ==> Translate(i) == i)
  {
  }

  lemma StateStep(mext: bool, p: Program, i: Instr, s: State, s': State, x: nat, y: nat)
    requires Sound(Rv32(mext), s) && SameRegs(s.regs, s'.regs) && s.pc == s'.pc && Mapped(s.pc, 4)
    requires s'.ram == s.ram && s'.console == s.console && Carry(mext, p, s.rom, s'.rom)
    requires PortableAt(s.pc, i) && (i.Load? ==> ReadsData(mext, p, i, s)) && Tame(i, s, x, y)
    ensures var t, t' := Exec(Rv32(mext), i, s, x, y), Exec(Rv64(mext), Translate(i), s', x, y);
            && Sound(Rv32(mext), t) && SameRegs(t.regs, t'.regs) && Close(t.pc, t'.pc)
            && t'.ram == t.ram && t'.console == t.console && t.rom == s.rom && t'.rom == s'.rom
    ensures Taken(Rv32(mext), i, s) == Taken(Rv64(mext), Translate(i), s')
    ensures DataStall(Rv32(mext), i, s) == DataStall(Rv64(mext), Translate(i), s')
    ensures Stops(i, s) == Stops(Translate(i), s')
  {
    hide Sound, SameRegs, Close, Carry, Exec, Stops, Taken, DataStall, ReadCsr, PortableAt, Wrap, InRom, ReadLE;
    var s'' := s'.(rom := s.rom);
    PortableShape(i, s.pc);
    CloseSame(s.pc);
    InstructionSimulates(mext, i, s, s'', x, y);
    if i.Load? {
      SameData(mext, p, i, s, s');
    }
    assert s''.(rom := s'.rom) == s';
    OtherRom(Rv64(mext), Translate(i), s'', s'.rom, x, y);
    SameStall(mext, i, s, s');
    ExecSound(Rv32(mext), i, s, x, y);
  }

  /** One step of both machines. */
  lemma TwinStep(mext: bool, p: Program, c: Core, c': Core)
    requires Twins(mext, p, c, c') && Proceeds(mext, p, c)
    requires p[c.st.pc].Csr? ==> SmallCounters(c.mcycle + 4, c.minstret)
    ensures Twins(mext, p, Step(Rv32(mext), c), Step(Rv64(mext), c'))
    ensures Stops(Current(Rv32(mext), c), c.st) == Stops(Current(Rv64(mext), c'), c'.st)
  {
    hide Sound, SameRegs, Close, Carry, Exec, Stops, Taken, Decode, FetchWord, FetchStall, DataStall, HazardCycles,
         Retire, Tick, Portable, Translate, ReadsData, PortableAt, Address, InRom, ReadLE;
    var i := p[c.st.pc];
    var i' := Translate(i);
    TwinFetch(mext, p, c, c');
    SameTiming(i, c.perf);
    var seen := Tick(Fetched(c).mcycle, HazardCycles(c.perf, i));
    if i.Csr? {
      SmallSeen(c, i);
    }
    StateStep(mext, p, i, c.st, c'.st, seen, c.minstret);
  }

  // ------------------------------------------------------------------------- runs

  /** Any number of steps of a program and of its translation keep the machines in step. */
  lemma {:induction false} ProgramSimulates(mext: bool, p: Program, c: Core, c': Core, n: nat)
    requires Twins(mext, p, c, c')
    requires forall k :: 0 <= k < n ==>
               var d := Steps(Rv32(mext), c, k);
               Proceeds(mext, p, d) && (p[d.st.pc].Csr? ==> SmallCounters(d.mcycle + 4, d.minstret))
    ensures Twins(mext, p, Steps(Rv32(mext), c, n), Steps(Rv64(mext), c', n))
  {
    hide Twins, Proceeds, Step, SmallCounters;
    if n == 0 {
    } else {
      ProgramSimulates(mext, p, c, c', n - 1);
      TwinStep(mext, p, Steps(Rv32(mext), c, n - 1), Steps(Rv64(mext), c', n - 1));
    }
  }

  /** The loop of main stays in the program until it ends. */
  predicate StaysIn(mext: bool, p: Program, c: Core)
    decreases MAX_CYCLES - c.mcycle
  {
    c.mcycle < MAX_CYCLES ==>
      && Proceeds(mext, p, c)
      && (StepAdvances(Rv32(mext), c);
          Stops(Current(Rv32(mext), c), c.st) || StaysIn(mext, p, Step(Rv32(mext), c)))
  }

  /** Whole runs: from any twin states in which no more instructions than cycles have gone by,
      the loop of main ends alike on both machines, after the same instructions and the same
      cycles, with the same memory and the same console output. */
  lemma {:induction false} RunSimulates(mext: bool, p: Program, c: Core, c': Core)
    requires Twins(mext, p, c, c') && StaysIn(mext, p, c) && c.minstret <= c.mcycle <= MAX_CYCLES + 5
    ensures var (d, ending) := RunLoop(Rv32(mext), c);
            var (d', ending') := RunLoop(Rv64(mext), c');
            Twins(mext, p, d, d') && ending == ending'
    decreases MAX_CYCLES - c.mcycle
  {
    hide Carry, SameRegs, Close, Sound, ReadsData, Step, Cost, Stops, Current, Tick, FetchWord, Fetched;
    if c.mcycle < MAX_CYCLES {
      var e, e' := Step(Rv32(mext), c), Step(Rv64(mext), c');
      TwinFetch(mext, p, c, c');
      TwinStep(mext, p, c, c');
      StepAdvances(Rv32(mext), c);
      StepCounters(Rv32(mext), c);
      CostBounds(Rv32(mext), c);
      TickSmall(c.minstret, 1);
      if !Stops(Current(Rv32(mext), c), c.st) {
        RunSimulates(mext, p, e, e');
      }
    }
  }

  /** From power-on: two images, one the translation of the other, make twins. */
  lemma PowerOn(mext: bool, p: Program, image: Rom, image': Rom)
    requires Carry(mext, p, image, image') && StaysIn(mext, p, Reset(image))
    ensures var (d, ending) := RunLoop(Rv32(mext), Reset(image));
            var (d', ending') := RunLoop(Rv64(mext), Reset(image'));
            && ending == ending' && d'.mcycle == d.mcycle && d'.minstret == d.minstret
            && SameRegs(d.st.regs, d'.st.regs) && d'.st.ram == d.st.ram && d'.st.console == d.st.console
  {
    hide Carry, StaysIn, RunLoop;
    SextShape(0);
    ResetSound(Rv32(mext), image);
    RunSimulates(mext, p, Reset(image), Reset(image'));
  }

  // ----------------------------------------------------------------- such images

  lemma TranslateLegal(mext: bool, i: Instr)
    requires Legal(Rv32(mext), i)
    ensures Legal(Rv64(mext), Translate(i))
  {
  }

  /** Of what the manual defines for RV32, only AUIPC may be out of place. */
  lemma LegalPortable(mext: bool, a: nat, i: Instr)
    requires Legal(Rv32(mext), i)
    ensures PortableAt(a, i) <==> (i.Auipc? ==> i.rd == 0 || a + i.imm < 0x8000_0000)
  {
  }

  /** Instructions that can be laid in ROM: legal ones, of which no two overlap. */
  predicate Layout(mext: bool, p: Program) {
    && (forall a :: a in p ==> a + 4 <= ROM_SIZE && Legal(Rv32(mext), p[a]))
    && (forall a, b :: a in p && b in p && a < b ==> a + 4 <= b)
  }

  /** The words of p are its instructions' encodings in rom and those of their translations
      in rom'; all other bytes are the image's. */
  predicate Hold(p: Program, image: Rom, rom: Rom, rom': Rom) {
    && (forall a :: a in p ==>
          a + 4 <= ROM_SIZE && ReadLE(rom, a, 4) == Encode(p[a]) && ReadLE(rom', a, 4) == Encode(Translate(p[a])))
    && (forall j: nat :: j < ROM_SIZE && !InProgram(p, j) ==> rom[j] == rom'[j] == image[j])
  }

  /** A word written over an image, and the words beside it. */
  lemma WordWritten(rom: Rom, a: nat, w: nat, p: Program)
    requires a + 4 <= ROM_SIZE && w < TWO32
    requires forall b :: b in p ==> b + 4 <= ROM_SIZE && (b + 4 <= a || a + 4 <= b)
    ensures ReadLE(WriteLE(rom, a, w, 4), a, 4) == w
    ensures forall b :: b in p ==> ReadLE(WriteLE(rom, a, w, 4), b, 4) == ReadLE(rom, b, 4)
    ensures forall j: nat :: j < ROM_SIZE && !(a <= j < a + 4) ==> WriteLE(rom, a, w, 4)[j] == rom[j]
  {
    hide ReadLE, WriteLE, Pow2, Shr;
    Memory.ReadBack(rom, a, w, 4);
    Pow2Values();
    WrapSmall(TWO32, w);
    forall b | b in p ensures ReadLE(WriteLE(rom, a, w, 4), b, 4) == ReadLE(rom, b, 4) {
      Memory.ReadFrame(rom, a, w, 4, b, 4);
    }
    forall j: nat | j < ROM_SIZE && !(a <= j < a + 4) ensures WriteLE(rom, a, w, 4)[j] == rom[j] {
      Memory.WriteByteMap(rom, a, w, 4, j);
    }
  }

  lemma OtherBytes(p: Program, a: nat, j: nat)
    requires a in p && !InProgram(p, j)
    ensures !InProgram(p - {a}, j) && !(a <= j < a + 4)
  {
  }

  /** Any layout can be laid over any image, and its translation too. */
  lemma {:induction false} Lay(mext: bool, p: Program, image: Rom) returns (rom: Rom, rom': Rom)
    requires Layout(mext, p)
    ensures Hold(p, image, rom, rom')
    decreases |p|
  {
    hide ReadLE, WriteLE, Encode, Translate, Legal, InProgram;
    if |p| == 0 {
      rom, rom' := image, image;
    } else {
      var a :| a in p;
      var rest := p - {a};
      assert forall b :: b in rest ==> b in p && b != a && rest[b] == p[b];
      var before, before' := Lay(mext, rest, image);
      TranslateLegal(mext, p[a]);
      DecodeEncode(Rv32(mext), p[a]);
      DecodeEncode(Rv64(mext), Translate(p[a]));
      rom, rom' := WriteLE(before, a, Encode(p[a]), 4), WriteLE(before', a, Encode(Translate(p[a])), 4);
      WordWritten(before, a, Encode(p[a]), rest);
      WordWritten(before', a, Encode(Translate(p[a])), rest);
      forall j: nat | j < ROM_SIZE && !InProgram(p, j) ensures rom[j] == rom'[j] == image[j] {
        OtherBytes(p, a, j);
      }
    }
  }

  /** Such images carry the program, exactly when every AUIPC has its result below 2^31. */
  lemma HeldCarry(mext: bool, p: Program, image: Rom, rom: Rom, rom': Rom)
    requires Layout(mext, p) && Hold(p, image, rom, rom')
    ensures Carry(mext, p, rom, rom')
            <==> forall a :: a in p && p[a].Auipc? ==> p[a].rd == 0 || a + p[a].imm < 0x8000_0000
  {
    hide ReadLE, Encode, Decode, Translate, Legal, PortableAt, InProgram;
    forall a | a in p
      ensures PortableAt(a, p[a]) <==> (p[a].Auipc? ==> p[a].rd == 0 || a + p[a].imm < 0x8000_0000)
      ensures Decode(Rv32(mext), ReadLE(rom, a, 4)) == p[a] && Decode(Rv64(mext), ReadLE(rom', a, 4)) == Translate(p[a])
    {
      LegalPortable(mext, a, p[a]);
      TranslateLegal(mext, p[a]);
      DecodeEncode(Rv32(mext), p[a]);
      DecodeEncode(Rv64(mext), Translate(p[a]));
    }
  }

  // ------------------------------------------------------------------ an example

  /** A program that prints an H and makes the call that ends it. */
  const PRINTER := map[
    0 := AluImm(ADD, 10, 0, 11), 4 := AluImm(ADD, 11, 0, 72), 8 := Env(0, 0, 0),
    12 := AluImm(ADD, 10, 0, 10), 16 := Env(0, 0, 0)]

  lemma PrinterLayout(mext: bool)
    ensures Layout(mext, PRINTER)
    ensures forall a :: a in PRINTER ==> PRINTER[a].AluImm? || PRINTER[a].Env?
  {
  }

  lemma PlainProceeds(mext: bool, p: Program, c: Core, i: Instr)
    requires c.st.pc in p && p[c.st.pc] == i && (i.AluImm? || i.Env?)
    ensures Proceeds(mext, p, c)
  {
  }

  /** At an instruction of a program the RV32 machine fetches and decodes it. */
  lemma Follows(mext: bool, p: Program, c: Core, rom': Rom, i: Instr)
    requires Carry(mext, p, c.st.rom, rom') && c.st.pc in p && p[c.st.pc] == i
    ensures FetchWord(c.st) != 0 && Current(Rv32(mext), c) == i
  {
    hide ReadLE, Decode, PortableAt, Translate, InProgram;
    ZeroIsUnknown(mext);
    NeverUnknown(i, c.st.pc);
  }

  /** The loop of main at an integer instruction or an environment call of a program. */
  lemma GoesOn(mext: bool, p: Program, c: Core, rom': Rom, i: Instr)
    requires c.mcycle < MAX_CYCLES && Carry(mext, p, c.st.rom, rom') && c.st.pc in p
    requires p[c.st.pc] == i && (i.AluImm? || i.Env?)
    ensures var cfg := Rv32(mext);
            && Current(cfg, c) == i && Step(cfg, c).mcycle <= c.mcycle + 6
            && if Stops(i, c.st) then StaysIn(mext, p, c) && RunLoop(cfg, c) == (Step(cfg, c), Exited)
               else StaysIn(mext, p, c) == StaysIn(mext, p, Step(cfg, c))
                    && RunLoop(cfg, c) == RunLoop(cfg, Step(cfg, c))
  {
    hide Carry, Proceeds, Stops, Current, Step, FetchWord, Cost;
    Follows(mext, p, c, rom', i);
    PlainProceeds(mext, p, c, i);
    StepAdvances(Rv32(mext), c);
    CostBounds(Rv32(mext), c);
  }

  /** ADDI of a register from x0, on a machine at pc in ROM. */
  lemma AddStep(cfg: Config, c: Core, rd: Reg, imm: nat)
    requires Sound(cfg, c.st) && c.st.pc < ROM_SIZE
    requires Current(cfg, c) == AluImm(ADD, rd, 0, imm) && rd != 0 && imm < 0x800
    ensures Step(cfg, c).st == c.st.(pc := c.st.pc + 4, regs := c.st.regs[rd := imm]) && Sound(cfg, Step(cfg, c).st)
  {
    hide Wrap, Step, Current;
    var cycles := StepIs(cfg, c);
    SmallWord(cfg, c.st.pc + 4);
    SmallWord(cfg, imm);
  }

  lemma CallStep(cfg: Config, c: Core)
    requires Sound(cfg, c.st) && c.st.pc < ROM_SIZE && Current(cfg, c) == Env(0, 0, 0)
    ensures Step(cfg, c).st
            == c.st.(pc := c.st.pc + 4,
                     console := if c.st.regs[10] == 11 then c.st.console + [c.st.regs[11] % 256] else c.st.console)
    ensures Sound(cfg, Step(cfg, c).st)
  {
    hide Wrap, Step, Current;
    var cycles := StepIs(cfg, c);
    SmallWord(cfg, c.st.pc + 4);
  }

  /** What PowerOn asks for can be met: there are such images of the program, and both
      machines print its H and exit. */
  lemma PrinterRuns(mext: bool) returns (rom: Rom, rom': Rom)
    ensures Carry(mext, PRINTER, rom, rom') && StaysIn(mext, PRINTER, Reset(rom))
    ensures RunLoop(Rv32(mext), Reset(rom)).1 == RunLoop(Rv64(mext), Reset(rom')).1 == Exited
    ensures RunLoop(Rv32(mext), Reset(rom)).0.st.console == ['H' as int]
    ensures RunLoop(Rv64(mext), Reset(rom')).0.st.console == ['H' as int]
  {
    hide Carry, Proceeds, Step, StaysIn, RunLoop, Hold, Layout, Sound, Current;
    PrinterLayout(mext);
    var blank: Rom := seq(ROM_SIZE, _ => 0);
    rom, rom' := Lay(mext, PRINTER, blank);
    HeldCarry(mext, PRINTER, blank, rom, rom');
    var cfg, c := Rv32(mext), Reset(rom);
    ResetSound(cfg, rom);
    GoesOn(mext, PRINTER, c, rom', PRINTER[0]);
    AddStep(cfg, c, 10, 11);
    var c1 := Step(cfg, c);
    GoesOn(mext, PRINTER, c1, rom', PRINTER[4]);
    AddStep(cfg, c1, 11, 72);
    var c2 := Step(cfg, c1);
    GoesOn(mext, PRINTER, c2, rom', PRINTER[8]);
    CallStep(cfg, c2);
    var c3 := Step(cfg, c2);
    GoesOn(mext, PRINTER, c3, rom', PRINTER[12]);
    AddStep(cfg, c3, 10, 10);
    var c4 := Step(cfg, c3);
    GoesOn(mext, PRINTER, c4, rom', PRINTER[16]);
    CallStep(cfg, c4);
    PowerOn(mext, PRINTER, rom, rom');
  }
}

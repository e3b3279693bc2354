/** Whole runs of the machine: what every step keeps, the exact cycle account, the bounds
    of the run loop, and the independence of the architectural state from timing. */
module Runs {
  import opened Words
  import opened Arch
  import opened Isa
  import opened Semantics
  import opened Memory
  import Alu

  // -------------------------------------------------------------------- runs

  /** The state at power-on with the given ROM image. */
  function Reset(image: Rom): Core {
    Core(State(seq(32, _ => 0), 0, seq(RAM_SIZE, _ => 0), image, []), FRESH, 4, 0)
  }

  function Current(cfg: Config, c: Core): Instr {
    Decode(cfg, FetchWord(c.st))
  }

  /** n steps, whatever they execute. */
  function Steps(cfg: Config, c: Core, n: nat): Core {
    if n == 0 then c else Step(cfg, Steps(cfg, c, n - 1))
  }

  lemma {:induction false} StepsAdd(cfg: Config, c: Core, a: nat, b: nat)
    ensures Steps(cfg, c, a + b) == Steps(cfg, Steps(cfg, c, a), b)
  {
    hide Step;
    if b == 0 {
    } else {
      StepsAdd(cfg, c, a, b - 1);
    }
  }

  /** The cycles one step takes. */
  function Cost(cfg: Config, c: Core): nat {
    var i := Current(cfg, c);
    Count(FetchStall(c.st)) + HazardCycles(c.perf, i) + Count(DataStall(cfg, i, c.st)) + Count(Taken(cfg, i, c.st)) + 1
  }

  lemma CostBounds(cfg: Config, c: Core)
    ensures 1 <= Cost(cfg, c) <= 6
  {
    hide Decode, FetchWord;
  }

  lemma StepCounters(cfg: Config, c: Core)
    ensures Step(cfg, c).mcycle == Tick(c.mcycle, Cost(cfg, c))
    ensures Step(cfg, c).minstret == Tick(c.minstret, 1)
    ensures Step(cfg, c).perf == Retire(c.perf, Current(cfg, c))
  {
    hide Tick, Exec, Decode, FetchWord, HazardCycles, DataStall, Taken, FetchStall, Retire;
    TickTick(c.mcycle, Count(FetchStall(c.st)), Cost(cfg, c) - Count(FetchStall(c.st)));
  }

  /** A step is its instruction, at some cycle count. */
  lemma StepIs(cfg: Config, c: Core) returns (cycles: nat)
    ensures Step(cfg, c).st == Exec(cfg, Current(cfg, c), c.st, cycles, c.minstret)
  {
    hide Exec, Decode, FetchWord, Tick, HazardCycles;
    cycles := Tick(Fetched(c).mcycle, HazardCycles(c.perf, Current(cfg, c)));
  }

  // ---------------------------------------------------------------- the run loop

  datatype Ending = Exited | ZeroWord | CycleLimit

  /** Below the limit no counter wraps, so a step adds exactly its cost. */
  lemma StepAdvances(cfg: Config, c: Core)
    requires c.mcycle < MAX_CYCLES
    ensures Step(cfg, c).mcycle == c.mcycle + Cost(cfg, c)
    ensures c.mcycle < Step(cfg, c).mcycle <= MAX_CYCLES + 5
  {
    hide Step, Cost, Current;
    StepCounters(cfg, c);
    CostBounds(cfg, c);
    WrapSmall(TWO64, c.mcycle + Cost(cfg, c));
  }

  /** The loop of main: until the program exits, a zero word is fetched, or the cycle
      limit is reached. */
  function RunLoop(cfg: Config, c: Core): (Core, Ending)
    decreases MAX_CYCLES - c.mcycle
  {
    if c.mcycle >= MAX_CYCLES then (c, CycleLimit)
    else if FetchWord(c.st) == 0 then (Fetched(c), ZeroWord)
    else
      StepAdvances(cfg, c);
      if Stops(Current(cfg, c), c.st) then (Step(cfg, c), Exited) else RunLoop(cfg, Step(cfg, c))
  }

  lemma TickSmall(counter: nat, n: nat)
    requires counter + n < TWO64
    ensures Tick(counter, n) == counter + n
  {
    WrapSmall(TWO64, counter + n);
  }

  /** However the loop ends, the counters obey 4 + minstret <= mcycle <= MAX_CYCLES + 5. */
  lemma {:induction false} RunLoopBounds(cfg: Config, c: Core)
    requires 4 + c.minstret <= c.mcycle <= MAX_CYCLES + 5
    ensures var c' := RunLoop(cfg, c).0;
            && 4 + c'.minstret <= c'.mcycle <= MAX_CYCLES + 5
            && c.minstret <= c'.minstret
            && (RunLoop(cfg, c).1 == CycleLimit ==> MAX_CYCLES <= c'.mcycle)
    decreases MAX_CYCLES - c.mcycle
  {
    hide Step, Current, Cost, FetchWord, Tick;
    if c.mcycle < MAX_CYCLES {
      if FetchWord(c.st) == 0 {
        assert Tick(c.mcycle, Count(FetchStall(c.st))) == c.mcycle + Count(FetchStall(c.st)) by {
          TickSmall(c.mcycle, Count(FetchStall(c.st)));
        }
      } else {
        StepAdvances(cfg, c);
        StepCounters(cfg, c);
        CostBounds(cfg, c);
        TickSmall(c.minstret, 1);
        if !Stops(Current(cfg, c), c.st) {
          RunLoopBounds(cfg, Step(cfg, c));
        }
      }
    }
  }

  /** The loop is a number of whole steps, followed at most by one more fetch. */
  lemma {:induction false} RunLoopIsSteps(cfg: Config, c: Core) returns (n: nat)
    ensures var (c', ending) := RunLoop(cfg, c);
            c' == if ending == ZeroWord then Fetched(Steps(cfg, c, n)) else Steps(cfg, c, n)
    ensures c.mcycle < MAX_CYCLES ==> c.mcycle + n <= MAX_CYCLES
    ensures c.mcycle >= MAX_CYCLES ==> n == 0
    decreases MAX_CYCLES - c.mcycle
  {
    hide Step, Current, FetchWord, Fetched, Cost;
    n := 0;
    if c.mcycle < MAX_CYCLES && FetchWord(c.st) != 0 {
      StepAdvances(cfg, c);
      CostBounds(cfg, c);
      if Stops(Current(cfg, c), c.st) {
        n := 1;
        assert Steps(cfg, c, 1) == Step(cfg, Steps(cfg, c, 0));
      } else {
        var k := RunLoopIsSteps(cfg, Step(cfg, c));
        n := 1 + k;
        assert Steps(cfg, c, 1) == Step(cfg, Steps(cfg, c, 0));
        StepsAdd(cfg, c, 1, k);
      }
    }
  }

  // --------------------------------------------------- what every step keeps

  /** Register ranges, x0, and the parity of pc. */
  predicate Sound(cfg: Config, s: State) {
    && s.regs[0] == 0
    && (forall r :: 0 <= r < 32 ==> s.regs[r] < cfg.Modulus())
    && s.pc < cfg.Modulus() && s.pc % 2 == 0
  }

  lemma ResetSound(cfg: Config, image: Rom)
    ensures Sound(cfg, Reset(image).st)
  {
  }

  lemma EvenSigned(h: int, x: int, y: int)
    requires x == 2 * y
    ensures Signed(2 * h, x) % 2 == 0
  {
    DivModUnique(x, 2, y, 0);
    DivModUnique(x - 2 * h, 2, y - h, 0);
  }

  lemma EvenImmediates(f: Fields)
    ensures ImmB(f) % 2 == 0 && ImmJ(f) % 2 == 0
  {
    hide Signed;
    EvenSigned(0x1000, f.f7 / 64 * 0x1000 + f.rd % 2 * 0x800 + f.f7 % 64 * 0x20 + f.rd / 2 * 2,
               f.f7 / 64 * 0x800 + f.rd % 2 * 0x400 + f.f7 % 64 * 0x10 + f.rd / 2);
    EvenSigned(0x10_0000, f.f7 / 64 * 0x10_0000 + (f.f3 + 8 * f.rs1) * 0x1000 + f.rs2 % 2 * 0x800
                          + (f.rs2 / 2 + 16 * (f.f7 % 64)) * 2,
               f.f7 / 64 * 0x8_0000 + (f.f3 + 8 * f.rs1) * 0x800 + f.rs2 % 2 * 0x400
               + (f.rs2 / 2 + 16 * (f.f7 % 64)));
  }

  /** Branch and jump offsets decode to even numbers. */
  lemma EvenOffsets(cfg: Config, w: nat)
    ensures var i := Decode(cfg, w);
            (i.Branch? || i.Jal?) ==> i.imm % 2 == 0
  {
    hide Split, ImmI, ImmS, ImmU, PlainOp, MulDivOp, ImmOp, WordOp, ImmOperand, LoadOp, StoreOp, CondOf;
    EvenImmediates(Split(w));
  }

  /** RV32 has no doubleword and no 32-bit forms. */
  predicate FitsBuild(cfg: Config, i: Instr) {
    && (i.AluW? || i.AluImmW? ==> cfg.rv64)
    && (i.Load? && (i.mem == D || i.mem == WU) ==> cfg.rv64)
    && (i.Branch? || i.Jal? ==> i.imm % 2 == 0)
  }

  lemma DecodedFits(cfg: Config, w: nat)
    ensures FitsBuild(cfg, Decode(cfg, w))
  {
    EvenOffsets(cfg, w);
    hide Split, ImmI, ImmS, ImmB, ImmU, ImmJ, PlainOp, MulDivOp, ImmOp, WordOp, ImmOperand, StoreOp, CondOf;
  }

  lemma OffsetParity(m: int, pc: int, offset: int)
    requires m == TWO32 || m == TWO64
    requires pc % 2 == 0 && offset % 2 == 0
    ensures Wrap(m, pc + offset) % 2 == 0
  {
    assert pc + offset == (pc + offset) / m * m + Wrap(m, pc + offset);
  }

  lemma AluInRange(cfg: Config, i: Instr, s: State)
    requires (i.Alu? || i.AluImm? || i.AluW? || i.AluImmW?) && Sound(cfg, s) && FitsBuild(cfg, i)
    ensures AluOf(cfg, i, s) < cfg.Modulus()
  {
    hide AluAt;
    match i
    case Alu(op, _, rs1, rs2) => Alu.AluBound(cfg, op, s.regs[rs1], s.regs[rs2]);
    case AluImm(op, _, rs1, imm) => Alu.AluBound(cfg, op, s.regs[rs1], Wrap(cfg.Modulus(), imm));
    case _ =>
  }

  lemma {:induction false} CsrInRange(cfg: Config, csr: nat, mcycle: nat, minstret: nat)
    ensures ReadCsr(cfg, csr, mcycle, minstret) < cfg.Modulus()
  {
  }

  /** One instruction keeps the state sound: x0 stays zero, pc even, registers in range. */
  lemma ExecSound(cfg: Config, i: Instr, s: State, mcycle: nat, minstret: nat)
    requires Sound(cfg, s) && FitsBuild(cfg, i)
    ensures Sound(cfg, Exec(cfg, i, s, mcycle, minstret))
    ensures Exec(cfg, i, s, mcycle, minstret).rom == s.rom
  {
    hide AluOf, Wrap, ReadCsr, Extend, Peek, WriteLE, Taken, Mapped, InRam;
    var m := cfg.Modulus();
    OffsetParity(m, s.pc, 4);
    match i
    case Alu(_, _, _, _) => AluInRange(cfg, i, s);
    case AluImm(_, _, _, _) => AluInRange(cfg, i, s);
    case AluW(_, _, _, _) => AluInRange(cfg, i, s);
    case AluImmW(_, _, _, _) => AluInRange(cfg, i, s);
    case Load(mem, rd, rs1, imm) => ExtendBound(cfg, mem, s.(pc := Wrap(m, s.pc + 4)), Address(cfg, s, rs1, imm));
    case Branch(_, _, _, imm) => OffsetParity(m, s.pc, imm);
    case Jal(_, imm) => OffsetParity(m, s.pc, imm);
    case Csr(_, _, _, csr) => CsrInRange(cfg, csr, mcycle, minstret);
    case _ =>
  }

  /** A step writes at most the bytes of its one store, and only into RAM. */
  lemma ExecRamFrame(cfg: Config, i: Instr, s: State, mcycle: nat, minstret: nat, j: nat)
    requires j < RAM_SIZE && Exec(cfg, i, s, mcycle, minstret).ram[j] != s.ram[j]
    ensures i.Store? && i.mem != NOMEM
    ensures var addr := Address(cfg, s, i.rs1, i.imm);
            InRam(addr, Bytes(i.mem)) && addr <= RAM_START + j < addr + Bytes(i.mem)
  {
    hide AluOf, Wrap, ReadCsr, Extend, Peek, Taken, BytesOf;
  }

  lemma WrapPlus1(n: nat)
    requires 0 < n
    ensures Tick((n - 1) % TWO64, 1) == n % TWO64
  {
    WrapPlus(TWO64, n, -((n - 1) / TWO64));
  }

  /** After any number of steps from power-on: the state is sound, ROM is the image and
      minstret counts the steps. */
  lemma {:induction false} WholeRun(cfg: Config, image: Rom, n: nat)
    ensures var c := Steps(cfg, Reset(image), n);
            Sound(cfg, c.st) && c.st.rom == image && c.minstret == n % TWO64 && c.mcycle < TWO64
  {
    hide Exec, Decode, FetchWord, Sound, HazardCycles, DataStall, Taken, FetchStall, Retire;
    if n == 0 {
      ResetSound(cfg, image);
    } else {
      WholeRun(cfg, image, n - 1);
      var c := Steps(cfg, Reset(image), n - 1);
      var seen := Tick(Fetched(c).mcycle, HazardCycles(c.perf, Current(cfg, c)));
      DecodedFits(cfg, FetchWord(c.st));
      ExecSound(cfg, Current(cfg, c), c.st, seen, c.minstret);
      WrapPlus1(n);
    }
  }
}

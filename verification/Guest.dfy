/** Guest code on the machine: the start-up loops of sdk/bsp/crt0.S, encoded in ROM and
    followed instruction by instruction. */
module Guest {
  import opened Words
  import opened Arch
  import opened Isa
  import opened Semantics
  import opened Memory
  import opened Runs

  // ------------------------------------------------------------- code in ROM

  /** The instruction words of code lie in ROM from address a, which is word-aligned. */
  predicate CodeAt(rom: Rom, a: nat, code: seq<Instr>) {
    && a % 4 == 0 && a + 4 * |code| <= ROM_SIZE
    && forall k :: 0 <= k < |code| ==> ReadLE(rom, a + 4 * k, 4) == Encode(code[k])
  }

  /** At an encoded instruction, a step is that instruction without a fetch stall. */
  lemma StepAt(cfg: Config, c: Core, a: nat, code: seq<Instr>, k: nat)
    requires CodeAt(c.st.rom, a, code) && k < |code| && Legal(cfg, code[k])
    requires c.st.pc == a + 4 * k && c.mcycle < TWO64
    ensures Step(cfg, c) == StepInstr(cfg, c, code[k])
  {
    hide Decode, Encode, ReadLE, Tick, Legal, StepInstr;
    DecodeEncode(cfg, code[k]);
    TickZero(c.mcycle);
    assert Fetched(c) == c;
  }

  // ------------------------------------------- single instructions, simplified

  function Next(s: State): State {
    s.(pc := s.pc + 4)
  }

  /** A pc from which no offset used here leaves the address range. */
  predicate InCode(pc: nat) { pc + 4 <= ROM_SIZE }

  lemma BranchStep(cfg: Config, c: Core, rs1: Reg, rs2: Reg, imm: int)
    requires InCode(c.st.pc) && 0 <= c.st.pc + imm <= ROM_SIZE
    requires c.st.regs[rs1] < 0x8000_0000 && c.st.regs[rs2] < 0x8000_0000
    ensures var taken := c.st.regs[rs1] >= c.st.regs[rs2];
            StepInstr(cfg, c, Branch(GE, rs1, rs2, imm))
            == Core(if taken then c.st.(pc := c.st.pc + imm) else Next(c.st),
                    Perf(0, c.perf.prevRd, false, c.perf.prevLoad, false),
                    Tick(c.mcycle, BranchUseCycles(c.perf, rs1, rs2) + Count(taken) + 1),
                    Tick(c.minstret, 1))
  {
    hide Tick, Wrap, BranchUseCycles;
    SmallWord(cfg, c.st.pc + 4);
    SmallWord(cfg, c.st.pc + imm);
  }

  lemma JumpStep(cfg: Config, c: Core, imm: int)
    requires InCode(c.st.pc) && 0 <= c.st.pc + imm <= ROM_SIZE
    ensures StepInstr(cfg, c, Jal(0, imm))
            == Core(c.st.(pc := c.st.pc + imm), Perf(0, c.perf.prevRd, false, c.perf.prevLoad, true),
                    Tick(c.mcycle, 2), Tick(c.minstret, 1))
  {
    hide Tick, Wrap;
    SmallWord(cfg, c.st.pc + imm);
  }

  /** addi rd, rd, 4 on an address. */
  lemma AdvanceStep(cfg: Config, c: Core, rd: Reg)
    requires InCode(c.st.pc) && rd != 0 && c.st.regs[rd] + 4 < TWO32
    ensures StepInstr(cfg, c, AluImm(ADD, rd, rd, 4))
            == Core(Next(c.st).(regs := c.st.regs[rd := c.st.regs[rd] + 4]),
                    Perf(rd, c.perf.prevRd, false, c.perf.prevLoad, true),
                    Tick(c.mcycle, LoadUseCycles(c.perf, rd, 0) + 1), Tick(c.minstret, 1))
  {
    hide Tick, Wrap, LoadUseCycles;
    SmallWord(cfg, c.st.pc + 4);
    SmallWord(cfg, 4);
    SmallWord(cfg, c.st.regs[rd] + 4);
  }

  /** lw rd, 0(rs1) from a word-aligned ROM address. */
  lemma RomLoadStep(cfg: Config, c: Core, rd: Reg, rs1: Reg)
    requires InCode(c.st.pc) && rd != 0
    requires c.st.regs[rs1] % 4 == 0 && c.st.regs[rs1] + 4 <= ROM_SIZE
    ensures StepInstr(cfg, c, Load(W, rd, rs1, 0))
            == Core(Next(c.st).(regs := c.st.regs[rd := Extend(cfg.Modulus(), W, ReadLE(c.st.rom, c.st.regs[rs1], 4))]),
                    Perf(rd, c.perf.prevRd, true, c.perf.prevLoad, true),
                    Tick(c.mcycle, LoadUseCycles(c.perf, rs1, 0) + 1), Tick(c.minstret, 1))
  {
    hide Tick, Wrap, LoadUseCycles, Extend, ReadLE;
    SmallWord(cfg, c.st.pc + 4);
    SmallWord(cfg, c.st.regs[rs1]);
  }

  /** sw rs2, 0(rs1) to a word-aligned RAM address. */
  lemma RamStoreStep(cfg: Config, c: Core, rs1: Reg, rs2: Reg)
    requires InCode(c.st.pc)
    requires c.st.regs[rs1] % 4 == 0 && InRam(c.st.regs[rs1], 4)
    ensures StepInstr(cfg, c, Store(W, rs1, rs2, 0))
            == Core(Next(c.st).(ram := WriteLE(c.st.ram, c.st.regs[rs1] - RAM_START, c.st.regs[rs2], 4)),
                    Perf(0, c.perf.prevRd, false, c.perf.prevLoad, false),
                    Tick(c.mcycle, LoadUseCycles(c.perf, rs1, rs2) + 1), Tick(c.minstret, 1))
  {
    hide Tick, Wrap, LoadUseCycles, WriteLE;
    SmallWord(cfg, c.st.pc + 4);
    SmallWord(cfg, c.st.regs[rs1]);
  }

  // ------------------------------------------------------------ the copy loop

  // a0 = x10 walks the image of .data in ROM, a1 = x11 and a2 = x12 delimit .data in RAM.
  const COPY_LOOP: seq<Instr> := [
    Branch(GE, 11, 12, 24),
    Load(W, 5, 10, 0),
    Store(W, 11, 5, 0),
    AluImm(ADD, 10, 10, 4),
    AluImm(ADD, 11, 11, 4),
    Jal(0, -20)
  ]

  lemma CopyLoopLegal(cfg: Config, k: nat)
    requires k < 6
    ensures Legal(cfg, COPY_LOOP[k])
  {
  }

  /** The word the loop moves. */
  function CopiedWord(cfg: Config, s: State): nat
    requires s.regs[10] + 4 <= ROM_SIZE
  {
    Extend(cfg.Modulus(), W, ReadLE(s.rom, s.regs[10], 4))
  }

  /** The loop is at its head with another word to move. */
  predicate CopyReady(s: State, a: nat) {
    && CodeAt(s.rom, a, COPY_LOOP) && s.pc == a
    && s.regs[10] % 4 == 0 && s.regs[10] + 4 <= ROM_SIZE
    && s.regs[11] % 4 == 0 && InRam(s.regs[11], 4)
    && s.regs[11] < s.regs[12] < 0x8000_0000
  }

  function CopiedState(cfg: Config, s: State): State
    requires s.regs[10] + 4 <= ROM_SIZE && InRam(s.regs[11], 4)
  {
    s.(regs := s.regs[5 := CopiedWord(cfg, s)][10 := s.regs[10] + 4][11 := s.regs[11] + 4],
       ram := WriteLE(s.ram, s.regs[11] - RAM_START, CopiedWord(cfg, s), 4))
  }

  /** What the pipeline remembers after a loop closes with its jump. */
  predicate Drained(p: Perf) {
    p.prevRd == 0 && !p.prevLoad && !p.prev2Load
  }

  /** The record after the compare that leaves a loop of n rounds. */
  function AfterLoop(p: Perf, n: nat): Perf {
    if n == 0 then Perf(0, p.prevRd, false, p.prevLoad, false) else FRESH
  }

  lemma DrainedLoop(p: Perf, n: nat)
    requires Drained(p)
    ensures AfterLoop(p, n) == FRESH
  {
  }

  lemma DrainedBranch(p: Perf, rs1: Reg, rs2: Reg)
    requires Drained(p)
    ensures BranchUseCycles(p, rs1, rs2) == 0
  {
  }

  lemma CopyCode(rom: Rom, a: nat)
    requires CodeAt(rom, a, COPY_LOOP)
    ensures a % 4 == 0 && a + 24 <= ROM_SIZE
  {
  }

  lemma ThreeSteps(cfg: Config, c: Core)
    ensures Steps(cfg, c, 3) == Step(cfg, Step(cfg, Step(cfg, c)))
  {
    hide Step;
    assert Steps(cfg, c, 1) == Step(cfg, Steps(cfg, c, 0));
    assert Steps(cfg, c, 2) == Step(cfg, Steps(cfg, c, 1));
  }

  /** Through the compare, the load and the store. */
  lemma CopyFirstHalf(cfg: Config, c: Core, a: nat)
    requires CopyReady(c.st, a) && c.mcycle < TWO64
    ensures var x := CopiedWord(cfg, c.st);
            Steps(cfg, c, 3) == Core(
              State(c.st.regs[5 := x], a + 12, WriteLE(c.st.ram, c.st.regs[11] - RAM_START, x, 4), c.st.rom,
                    c.st.console),
              Perf(0, 5, false, true, false),
              Tick(c.mcycle, BranchUseCycles(c.perf, 11, 12) + 4), Tick(c.minstret, 3))
  {
    hide CodeAt, Step, StepInstr, Tick, BranchUseCycles, Extend, ReadLE, WriteLE, Legal;
    CopyCode(c.st.rom, a);
    CopyLoopLegal(cfg, 0);
    CopyLoopLegal(cfg, 1);
    CopyLoopLegal(cfg, 2);
    var h := BranchUseCycles(c.perf, 11, 12);
    StepAt(cfg, c, a, COPY_LOOP, 0);
    BranchStep(cfg, c, 11, 12, 24);
    var c1 := Step(cfg, c);
    StepAt(cfg, c1, a, COPY_LOOP, 1);
    RomLoadStep(cfg, c1, 5, 10);
    var c2 := Step(cfg, c1);
    StepAt(cfg, c2, a, COPY_LOOP, 2);
    RamStoreStep(cfg, c2, 11, 5);
    TickTick(c.mcycle, h + 1, 1);
    TickTick(c.mcycle, h + 2, 2);
    TickTick(c.minstret, 1, 1);
    TickTick(c.minstret, 2, 1);
    ThreeSteps(cfg, c);
  }

  /** Through the two pointer increments and the jump back. */
  lemma CopySecondHalf(cfg: Config, c: Core, a: nat)
    requires CodeAt(c.st.rom, a, COPY_LOOP) && c.st.pc == a + 12 && c.mcycle < TWO64
    requires c.st.regs[10] + 4 < TWO32 && c.st.regs[11] + 4 < TWO32 && !c.perf.prevLoad
    ensures var c' := Steps(cfg, c, 3);
            && c'.st == c.st.(pc := a, regs := c.st.regs[10 := c.st.regs[10] + 4][11 := c.st.regs[11] + 4])
            && Drained(c'.perf)
            && c'.mcycle == Tick(c.mcycle, 4) && c'.minstret == Tick(c.minstret, 3)
  {
    hide CodeAt, Step, StepInstr, Tick, Legal;
    CopyCode(c.st.rom, a);
    CopyLoopLegal(cfg, 3);
    CopyLoopLegal(cfg, 4);
    CopyLoopLegal(cfg, 5);
    StepAt(cfg, c, a, COPY_LOOP, 3);
    AdvanceStep(cfg, c, 10);
    var c1 := Step(cfg, c);
    StepAt(cfg, c1, a, COPY_LOOP, 4);
    AdvanceStep(cfg, c1, 11);
    var c2 := Step(cfg, c1);
    StepAt(cfg, c2, a, COPY_LOOP, 5);
    JumpStep(cfg, c2, -20);
    TickTick(c.mcycle, 1, 1);
    TickTick(c.mcycle, 2, 2);
    TickTick(c.minstret, 1, 1);
    TickTick(c.minstret, 2, 1);
    ThreeSteps(cfg, c);
  }

  /** One round: six instructions, eight cycles after whatever the compare waits for. */
  lemma CopyRound(cfg: Config, c: Core, a: nat)
    requires CopyReady(c.st, a) && c.mcycle < TWO64
    ensures var c' := Steps(cfg, c, 6);
            && c'.st == CopiedState(cfg, c.st) && Drained(c'.perf)
            && c'.mcycle == Tick(c.mcycle, BranchUseCycles(c.perf, 11, 12) + 8)
            && c'.minstret == Tick(c.minstret, 6)
  {
    hide CodeAt, Step, Tick, BranchUseCycles, Extend, ReadLE, WriteLE, Steps;
    CopyFirstHalf(cfg, c, a);
    CopySecondHalf(cfg, Steps(cfg, c, 3), a);
    StepsAdd(cfg, c, 3, 3);
    TickTick(c.mcycle, BranchUseCycles(c.perf, 11, 12) + 4, 4);
    TickTick(c.minstret, 3, 3);
  }

  /** ram with the given bytes laid over it at offset o. */
  function Spliced(ram: Ram, o: nat, bytes: seq<Byte>): Ram
    requires o + |bytes| <= RAM_SIZE
  {
    ram[..o] + bytes + ram[o + |bytes|..]
  }

  /** A loaded word differs from its register value only above bit 31. */
  lemma LoadedWord(cfg: Config, v: nat) returns (q: nat)
    requires v < TWO32
    ensures Extend(cfg.Modulus(), W, v) == v + q * TWO32
  {
    q := 0;
    if v < 0x8000_0000 {
      WrapSmall(cfg.Modulus(), v);
    } else {
      q := if cfg.rv64 then TWO32 - 1 else 0;
      DivModUnique(v - TWO32, cfg.Modulus(), -1, v + q * TWO32);
    }
  }

  /** The loaded word, sign-extended, is stored back as the very bytes it was read from. */
  lemma CopiedBytes(cfg: Config, s: State, ram: Ram, o: nat)
    requires s.regs[10] + 4 <= ROM_SIZE && o + 4 <= RAM_SIZE
    ensures WriteLE(ram, o, CopiedWord(cfg, s), 4) == Spliced(ram, o, s.rom[s.regs[10]..s.regs[10] + 4])
  {
    hide ReadLE, BytesOf, Pow2, Extend;
    var v := ReadLE(s.rom, s.regs[10], 4);
    ReadBound(s.rom, s.regs[10], 4);
    Pow2Values();
    var q := LoadedWord(cfg, v);
    BytesOfMod(v, q, 4);
    BytesOfRead(s.rom, s.regs[10], 4);
  }

  /** The linker's layout of .data, read off the registers at the head of the loop: n words
      of image at a0, and n words of RAM from a1 to a2, all word-aligned. */
  predicate CopyLayout(s: State, a: nat, n: nat) {
    && CodeAt(s.rom, a, COPY_LOOP) && s.pc == a
    && s.regs[10] % 4 == 0 && s.regs[10] + 4 * n <= ROM_SIZE
    && s.regs[11] % 4 == 0 && InRam(s.regs[11], 4 * n)
    && s.regs[12] == s.regs[11] + 4 * n
  }

  lemma SpliceTwice(ram: Ram, o: nat, x: seq<Byte>, y: seq<Byte>)
    requires o + |x| + |y| <= RAM_SIZE
    ensures Spliced(Spliced(ram, o, x), o + |x|, y) == Spliced(ram, o, x + y)
  {
  }

  lemma SpliceNothing(ram: Ram, o: nat, x: seq<Byte>)
    requires o <= RAM_SIZE && |x| == 0
    ensures Spliced(ram, o, x) == ram
  {
  }

  /** The compare that leaves the loop. */
  lemma CopyExit(cfg: Config, c: Core, a: nat)
    requires CopyLayout(c.st, a, 0) && c.mcycle < TWO64
    ensures var c' := Steps(cfg, c, 1);
            && c'.st == c.st.(pc := a + 24)
            && c'.mcycle == Tick(c.mcycle, BranchUseCycles(c.perf, 11, 12) + 2)
            && c'.minstret == Tick(c.minstret, 1) && c'.perf == AfterLoop(c.perf, 0)
  {
    hide CodeAt, StepInstr, Tick, BranchUseCycles, Step;
    CopyCode(c.st.rom, a);
    CopyLoopLegal(cfg, 0);
    StepAt(cfg, c, a, COPY_LOOP, 0);
    BranchStep(cfg, c, 11, 12, 24);
    assert Steps(cfg, c, 1) == Step(cfg, Steps(cfg, c, 0));
  }

  /** copy_data_loop is correct and its cost exact: from its head, 6n + 1 instructions and
      8n + 2 cycles plus the stall of the first compare bring the machine to
      copy_data_done with the image of .data copied, nothing else in RAM changed, and a pipeline
      record that the rounds have emptied. */
  lemma {:induction false} CopyLoop(cfg: Config, c: Core, a: nat, n: nat)
    requires CopyLayout(c.st, a, n) && c.mcycle < TWO64
    ensures var c', r := Steps(cfg, c, 6 * n + 1), c.st.regs;
            && c'.st.pc == a + 24
            && c'.st.ram == Spliced(c.st.ram, r[11] - RAM_START, c.st.rom[r[10]..r[10] + 4 * n])
            && c'.st.rom == c.st.rom && c'.st.console == c.st.console
            && (forall k :: 0 <= k < 32 && k !in {5, 10, 11} ==> c'.st.regs[k] == r[k])
            && c'.mcycle == Tick(c.mcycle, BranchUseCycles(c.perf, 11, 12) + 8 * n + 2)
            && c'.minstret == Tick(c.minstret, 6 * n + 1) && c'.perf == AfterLoop(c.perf, n)
    decreases n
  {
    hide CodeAt, Step, StepInstr, Tick, BranchUseCycles, Steps, CopiedWord, Spliced, WriteLE, Extend, ReadLE;
    var r, o := c.st.regs, c.st.regs[11] - RAM_START;
    if n == 0 {
      CopyExit(cfg, c, a);
      SpliceNothing(c.st.ram, o, c.st.rom[r[10]..r[10]]);
    } else {
      CopyRound(cfg, c, a);
      var c1 := Steps(cfg, c, 6);
      CopyLoop(cfg, c1, a, n - 1);
      StepsAdd(cfg, c, 6, 6 * (n - 1) + 1);
      CopiedBytes(cfg, c.st, c.st.ram, o);
      SpliceTwice(c.st.ram, o, c.st.rom[r[10]..r[10] + 4], c.st.rom[r[10] + 4..r[10] + 4 * n]);
      assert c.st.rom[r[10]..r[10] + 4] + c.st.rom[r[10] + 4..r[10] + 4 * n] == c.st.rom[r[10]..r[10] + 4 * n];
      DrainedLoop(c1.perf, n - 1);
      DrainedBranch(c1.perf, 11, 12);
      TickTick(c.mcycle, BranchUseCycles(c.perf, 11, 12) + 8, 8 * (n - 1) + 2);
      TickTick(c.minstret, 6, 6 * (n - 1) + 1);
    }
  }

  // ------------------------------------------------------------ the clear loop

  // a0 = x10 walks .bss up to a1 = x11.
  const ZERO_LOOP: seq<Instr> := [
    Branch(GE, 10, 11, 16),
    Store(W, 10, 0, 0),
    AluImm(ADD, 10, 10, 4),
    Jal(0, -12)
  ]

  lemma ZeroLoopLegal(cfg: Config, k: nat)
    requires k < 4
    ensures Legal(cfg, ZERO_LOOP[k])
  {
  }

  lemma ZeroCode(rom: Rom, a: nat)
    requires CodeAt(rom, a, ZERO_LOOP)
    ensures a % 4 == 0 && a + 16 <= ROM_SIZE
  {
  }

  /** m words of RAM from a0 to a1, word-aligned. */
  predicate ZeroLayout(s: State, a: nat, m: nat) {
    && CodeAt(s.rom, a, ZERO_LOOP) && s.pc == a && s.regs[0] == 0
    && s.regs[10] % 4 == 0 && InRam(s.regs[10], 4 * m)
    && s.regs[11] == s.regs[10] + 4 * m
  }

  lemma FourSteps(cfg: Config, c: Core)
    ensures Steps(cfg, c, 4) == Step(cfg, Step(cfg, Step(cfg, Step(cfg, c))))
  {
    hide Step;
    ThreeSteps(cfg, c);
    assert Steps(cfg, c, 4) == Step(cfg, Steps(cfg, c, 3));
  }

  /** One round: four instructions, five cycles after whatever the compare waits for. */
  lemma ZeroRound(cfg: Config, c: Core, a: nat, m: nat)
    requires ZeroLayout(c.st, a, m) && 0 < m && c.mcycle < TWO64
    ensures var c' := Steps(cfg, c, 4);
            && c'.st == c.st.(regs := c.st.regs[10 := c.st.regs[10] + 4],
                              ram := WriteLE(c.st.ram, c.st.regs[10] - RAM_START, 0, 4))
            && Drained(c'.perf)
            && c'.mcycle == Tick(c.mcycle, BranchUseCycles(c.perf, 10, 11) + 5)
            && c'.minstret == Tick(c.minstret, 4)
  {
    hide CodeAt, Step, StepInstr, Tick, BranchUseCycles, WriteLE, Legal, Steps;
    ZeroCode(c.st.rom, a);
    ZeroLoopLegal(cfg, 0);
    ZeroLoopLegal(cfg, 1);
    ZeroLoopLegal(cfg, 2);
    ZeroLoopLegal(cfg, 3);
    var h := BranchUseCycles(c.perf, 10, 11);
    StepAt(cfg, c, a, ZERO_LOOP, 0);
    BranchStep(cfg, c, 10, 11, 16);
    var c1 := Step(cfg, c);
    StepAt(cfg, c1, a, ZERO_LOOP, 1);
    RamStoreStep(cfg, c1, 10, 0);
    var c2 := Step(cfg, c1);
    StepAt(cfg, c2, a, ZERO_LOOP, 2);
    AdvanceStep(cfg, c2, 10);
    var c3 := Step(cfg, c2);
    StepAt(cfg, c3, a, ZERO_LOOP, 3);
    JumpStep(cfg, c3, -12);
    TickTick(c.mcycle, h + 1, 1);
    TickTick(c.mcycle, h + 2, 1);
    TickTick(c.mcycle, h + 3, 2);
    TickTick(c.minstret, 1, 1);
    TickTick(c.minstret, 2, 1);
    TickTick(c.minstret, 3, 1);
    FourSteps(cfg, c);
  }

  function Zeros(n: nat): (z: seq<Byte>)
    ensures |z| == n
  {
    seq(n, _ => 0)
  }

  lemma ClearedBytes(ram: Ram, o: nat)
    requires o + 4 <= RAM_SIZE
    ensures WriteLE(ram, o, 0, 4) == Spliced(ram, o, Zeros(4))
  {
    assert BytesOf(0, 4) == [0] + BytesOf(0, 3);
    assert BytesOf(0, 3) == [0] + BytesOf(0, 2);
    assert BytesOf(0, 2) == [0] + BytesOf(0, 1);
    assert BytesOf(0, 1) == [0] + BytesOf(0, 0);
    assert BytesOf(0, 4) == Zeros(4);
  }

  /** The compare that leaves the loop. */
  lemma ZeroExit(cfg: Config, c: Core, a: nat)
    requires ZeroLayout(c.st, a, 0) && c.mcycle < TWO64
    ensures var c' := Steps(cfg, c, 1);
            && c'.st == c.st.(pc := a + 16)
            && c'.mcycle == Tick(c.mcycle, BranchUseCycles(c.perf, 10, 11) + 2)
            && c'.minstret == Tick(c.minstret, 1) && c'.perf == AfterLoop(c.perf, 0)
  {
    hide CodeAt, StepInstr, Tick, BranchUseCycles, Step;
    ZeroCode(c.st.rom, a);
    ZeroLoopLegal(cfg, 0);
    StepAt(cfg, c, a, ZERO_LOOP, 0);
    BranchStep(cfg, c, 10, 11, 16);
    assert Steps(cfg, c, 1) == Step(cfg, Steps(cfg, c, 0));
  }

  /** zero_bss_loop likewise: 4m + 1 instructions and 5m + 2 cycles plus the stall of the
      first compare, after which .bss is zero and nothing else in RAM has changed. */
  lemma {:induction false} ZeroLoop(cfg: Config, c: Core, a: nat, m: nat)
    requires ZeroLayout(c.st, a, m) && c.mcycle < TWO64
    ensures var c', r := Steps(cfg, c, 4 * m + 1), c.st.regs;
            && c'.st.pc == a + 16
            && c'.st.ram == Spliced(c.st.ram, r[10] - RAM_START, Zeros(4 * m))
            && c'.st.rom == c.st.rom && c'.st.console == c.st.console
            && (forall k :: 0 <= k < 32 && k != 10 ==> c'.st.regs[k] == r[k])
            && c'.mcycle == Tick(c.mcycle, BranchUseCycles(c.perf, 10, 11) + 5 * m + 2)
            && c'.minstret == Tick(c.minstret, 4 * m + 1) && c'.perf == AfterLoop(c.perf, m)
    decreases m
  {
    hide CodeAt, Step, StepInstr, Tick, BranchUseCycles, Steps, WriteLE, Spliced;
    var r, o := c.st.regs, c.st.regs[10] - RAM_START;
    if m == 0 {
      ZeroExit(cfg, c, a);
      SpliceNothing(c.st.ram, o, Zeros(0));
    } else {
      ZeroRound(cfg, c, a, m);
      var c1 := Steps(cfg, c, 4);
      ZeroLoop(cfg, c1, a, m - 1);
      StepsAdd(cfg, c, 4, 4 * (m - 1) + 1);
      ClearedBytes(c.st.ram, o);
      SpliceTwice(c.st.ram, o, Zeros(4), Zeros(4 * (m - 1)));
      assert Zeros(4) + Zeros(4 * (m - 1)) == Zeros(4 * m);
      DrainedLoop(c1.perf, m - 1);
      DrainedBranch(c1.perf, 10, 11);
      TickTick(c.mcycle, BranchUseCycles(c.perf, 10, 11) + 5, 5 * (m - 1) + 2);
      TickTick(c.minstret, 4, 4 * (m - 1) + 1);
    }
  }

  lemma GreaterEqualCode()
    ensures CondCode(GE) == 5
  {
  }

  lemma BackwardOffsets(x: int, y: int)
    requires x == -20 && y == -12
    ensures Wrap(0x20_0000, x) == 0x1F_FFEC && Wrap(0x20_0000, y) == 0x1F_FFF4
  {
  }

  lemma TransferWords()
    ensures Encode(Branch(GE, 11, 12, 24)) == 0x00C5_DC63 && Encode(Jal(0, -20)) == 0xFEDF_F06F
    ensures Encode(Branch(GE, 10, 11, 16)) == 0x00B5_5863 && Encode(Jal(0, -12)) == 0xFF5F_F06F
  {
    hide *;
    BackwardOffsets(-20, -12);
    WrapSmall(0x2000, 24);
    WrapSmall(0x2000, 16);
    BranchWord(GE, 11, 12, 24, 24);
    BranchWord(GE, 10, 11, 16, 16);
    JumpWord(0, -20, 0x1F_FFEC);
    JumpWord(0, -12, 0x1F_FFF4);
    GreaterEqualCode();
  }

  lemma MemoryWords()
    ensures Encode(Load(W, 5, 10, 0)) == 0x0005_2283 && Encode(Store(W, 11, 5, 0)) == 0x0055_A023
    ensures Encode(Store(W, 10, 0, 0)) == 0x0005_2023
  {
  }

  lemma AdvanceWords()
    ensures Encode(AluImm(ADD, 10, 10, 4)) == 0x0045_0513 && Encode(AluImm(ADD, 11, 11, 4)) == 0x0045_8593
  {
  }

  lemma PlainWords()
    ensures Encode(Load(W, 5, 10, 0)) == 0x0005_2283 && Encode(Store(W, 11, 5, 0)) == 0x0055_A023
    ensures Encode(AluImm(ADD, 10, 10, 4)) == 0x0045_0513 && Encode(AluImm(ADD, 11, 11, 4)) == 0x0045_8593
    ensures Encode(Store(W, 10, 0, 0)) == 0x0005_2023
  {
    hide *;
    MemoryWords();
    AdvanceWords();
  }

  /** The machine words of the two loops. */
  lemma LoopWords()
    ensures Encode(Branch(GE, 11, 12, 24)) == 0x00C5_DC63 && Encode(Jal(0, -20)) == 0xFEDF_F06F
    ensures Encode(Branch(GE, 10, 11, 16)) == 0x00B5_5863 && Encode(Jal(0, -12)) == 0xFF5F_F06F
    ensures Encode(Load(W, 5, 10, 0)) == 0x0005_2283 && Encode(Store(W, 11, 5, 0)) == 0x0055_A023
    ensures Encode(AluImm(ADD, 10, 10, 4)) == 0x0045_0513 && Encode(AluImm(ADD, 11, 11, 4)) == 0x0045_8593
    ensures Encode(Store(W, 10, 0, 0)) == 0x0005_2023
  {
    hide *;
    TransferWords();
    PlainWords();
  }
}

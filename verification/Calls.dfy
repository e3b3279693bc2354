/** Calls and their ends: a subroutine returns behind its call, and a program ends by the
    environment call that sdk/bsp/crt0.S makes once main has returned. */
module Calls {
  import opened Words
  import opened Arch
  import opened Isa
  import opened Semantics
  import opened Memory
  import opened Runs
  import opened Listing
  import opened Effects
  import opened Machine

  // ----------------------------------------------------------- calls and returns

  lemma FetchedSound(cfg: Config, c: Core, i: Instr)
    requires Fetches(cfg, c, i)
    ensures c.st.pc % 2 == 0
  {
  }

  lemma EvenLink(cfg: Config, pc: nat)
    requires pc % 2 == 0
    ensures (pc + 4) % Range(cfg) % 2 == 0 && (pc + 4) % Range(cfg) < Range(cfg)
  {
    OffsetParity(cfg.Modulus(), pc, 4);
  }

  /** A call by JAL or JALR that links in rd, and a return through rd after any number of steps
      that leave rd as the call left it: control is behind the call, and nothing else changes. */
  lemma CallReturns(cfg: Config, c: Core, call: Instr, n: nat)
    requires Fetches(cfg, c, call) && (call.Jal? || call.Jalr?) && call.rd != 0
    requires var d := Steps(cfg, Step(cfg, c), n);
             d.st.regs[call.rd] == Step(cfg, c).st.regs[call.rd] && Fetches(cfg, d, Jalr(0, call.rd, 0))
    ensures Step(cfg, c).st.regs[call.rd] == (c.st.pc + 4) % Range(cfg)
    ensures var d := Steps(cfg, Step(cfg, c), n);
            Step(cfg, d).st == d.st.(pc := (c.st.pc + 4) % Range(cfg))
  {
    hide Fetches, Step, Steps;
    var d := Steps(cfg, Step(cfg, c), n);
    if call.Jal? {
      JalEffect(cfg, c, call);
    } else {
      JalrEffect(cfg, c, call);
    }
    JalrEffect(cfg, d, Jalr(0, call.rd, 0));
    FetchedSound(cfg, c, call);
    EvenLink(cfg, c.st.pc);
    DivModUnique((c.st.pc + 4) % Range(cfg), Range(cfg), 0, (c.st.pc + 4) % Range(cfg));
  }

  // ----------------------------------------------------------- the end of a run

  /** The word w stands at a, least significant byte first. */
  predicate Holds(rom: Rom, a: nat, w: nat) {
    && a + 4 <= 0x8_0000
    && rom[a] == w % 0x100 && rom[a + 1] == w / 0x100 % 0x100
    && rom[a + 2] == w / 0x1_0000 % 0x100 && rom[a + 3] == w / 0x100_0000
  }

  lemma FourBytes(w: nat)
    ensures w == w % 0x100 + 0x100 * (w / 0x100 % 0x100) + 0x1_0000 * (w / 0x1_0000 % 0x100)
                 + 0x100_0000 * (w / 0x100_0000)
  {
    var v := w / 0x100;
    var u := v / 0x100;
    assert w == 0x100 * v + w % 0x100 && v == 0x100 * u + v % 0x100 && u == 0x100 * (u / 0x100) + u % 0x100;
    assert w / 0x1_0000 == u && w / 0x100_0000 == u / 0x100;
  }

  lemma HeldWord(s: State, w: nat)
    requires Holds(s.rom, s.pc, w)
    ensures FetchWord(s) == w
  {
    hide ReadLE, Join4;
    FourBytes(w);
    ReadFour(s.rom, s.pc);
    Join4Sum(s.rom[s.pc + 3], s.rom[s.pc + 2], s.rom[s.pc + 1], s.rom[s.pc]);
  }

  /** A SYSTEM word without a CSR: 1 in its upper bits makes it EBREAK, anything else ECALL. */
  predicate Environment(w: nat) {
    w % 0x80 == 0x73 && w / 0x1000 % 8 == 0
  }

  /** The words at which a run can end. */
  predicate Ends(w: nat, s: State) {
    Environment(w) && (w / 0x10_0000 == 1 || s.regs[10] == 10)
  }

  lemma SystemFields(w: nat)
    requires w < TWO32
    ensures var f := Split(w);
            && f.op == w % 0x80 && f.f3 == w / 0x1000 % 8 && f.rs2 + 32 * f.f7 == w / 0x10_0000
  {
  }

  lemma EndsIs(cfg: Config, w: nat, s: State)
    requires w < TWO32
    ensures Stops(Decode(cfg, w), s) == Ends(w, s)
  {
    hide ImmI, ImmS, ImmB, ImmU, ImmJ, PlainOp, MulDivOp, ImmOp, WordOp, LoadOp, StoreOp, CondOf, ImmOperand;
    SystemFields(w);
  }

  /** The loop of main: it stops at the cycle limit and at a word of zero, it ends with the
      step at EBREAK and at ECALL with 10 in a0, and it goes on from the next state at any other
      word and at ECALL with any other a0. */
  lemma RunEnds(cfg: Config, c: Core)
    ensures RunLoop(cfg, c) == if c.mcycle >= 1_000_000_000 then (c, CycleLimit)
                               else if FetchWord(c.st) == 0 then (Fetched(c), ZeroWord)
                               else if Ends(FetchWord(c.st), c.st) then (Step(cfg, c), Exited)
                               else RunLoop(cfg, Step(cfg, c))
  {
    hide Step, FetchWord, Decode, Ends, Stops;
    if c.mcycle < MAX_CYCLES {
      LoopStep(cfg, c);
      EndsIs(cfg, FetchWord(c.st), c.st);
    }
  }

  /** The call that ends a program: addi a0, x0, 10 and ecall. */
  predicate ExitAt(rom: Rom, a: nat) {
    Holds(rom, a, 0x00A0_0513) && Holds(rom, a + 4, 0x0000_0073)
  }

  lemma ExitWords(cfg: Config)
    ensures Legal(cfg, AluImm(ADD, 10, 0, 10)) && Listed(cfg, AluImm(ADD, 10, 0, 10)) == 0x00A0_0513
    ensures Legal(cfg, Env(0, 0, 0)) && Listed(cfg, Env(0, 0, 0)) == 0x0000_0073
    ensures Environment(0x0000_0073) && !Environment(0x00A0_0513)
  {
  }

  lemma TenLoaded(cfg: Config, c: Core)
    requires Sound(cfg, c.st) && ExitAt(c.st.rom, c.st.pc)
    ensures FetchWord(c.st) == 0x00A0_0513
    ensures Step(cfg, c).st == c.st.(pc := c.st.pc + 4, regs := c.st.regs[10 := 10])
  {
    hide Step, FetchWord, Listed, Legal;
    var i := AluImm(ADD, 10, 0, 10);
    ExitWords(cfg);
    HeldWord(c.st, 0x00A0_0513);
    ImmediateEffect(cfg, c, i);
    SmallWord(cfg, 10);
    SmallWord(cfg, c.st.pc + 4);
  }

  lemma EcallPasses(cfg: Config, c: Core)
    requires Sound(cfg, c.st) && FetchWord(c.st) == 0x0000_0073 && c.st.pc + 4 <= 0x8_0000 && c.st.regs[10] == 10
    ensures Step(cfg, c).st == c.st.(pc := c.st.pc + 4)
  {
    hide Step, FetchWord, Listed, Legal;
    ExitWords(cfg);
    EnvEffect(cfg, c, Env(0, 0, 0));
    SmallWord(cfg, c.st.pc + 4);
    assert c.st.console + [] == c.st.console;
  }

  lemma StillSound(cfg: Config, s: State, t: State)
    requires Sound(cfg, s) && t == s.(pc := s.pc + 4, regs := s.regs[10 := 10]) && s.pc + 8 <= 0x8_0000
    ensures Sound(cfg, t)
  {
  }

  lemma TwoSteps(cfg: Config, c: Core)
    ensures Steps(cfg, c, 2) == Step(cfg, Step(cfg, c))
  {
    hide Step;
    assert Steps(cfg, c, 1) == Step(cfg, Steps(cfg, c, 0));
  }

  lemma AtRom(s: State)
    requires ExitAt(s.rom, s.pc)
    ensures s.pc + 8 <= 0x8_0000
  {
  }

  /** It takes two instructions: the run ends as exited, with pc behind them, 10 in a0 and all
      other registers, memory and output as they were. */
  lemma ExitCall(cfg: Config, c: Core)
    requires Sound(cfg, c.st) && ExitAt(c.st.rom, c.st.pc) && c.mcycle + 6 < 1_000_000_000
    ensures var (d, ending) := RunLoop(cfg, c);
            && ending == Exited && d == Steps(cfg, c, 2)
            && d.st == c.st.(pc := c.st.pc + 8, regs := c.st.regs[10 := 10])
            && c.mcycle + 2 <= d.mcycle <= c.mcycle + 12
  {
    hide Step, RunLoop, FetchWord, Sound, Holds, Cost, Steps;
    var c1 := Step(cfg, c);
    ExitWords(cfg);
    TenLoaded(cfg, c);
    RunEnds(cfg, c);
    AtRom(c.st);
    StillSound(cfg, c.st, c1.st);
    HeldWord(c1.st, 0x0000_0073);
    StepAdvances(cfg, c);
    CostBounds(cfg, c);
    EcallPasses(cfg, c1);
    RunEnds(cfg, c1);
    StepAdvances(cfg, c1);
    CostBounds(cfg, c1);
    TwoSteps(cfg, c);
  }

  /** The emulator reports success. */
  method RunToExit(e: Emulator) returns (code: nat)
    requires e.Valid() && Sound(e.cfg, e.Core().st) && ExitAt(e.rom[..], e.pc) && e.mcycle + 6 < 1_000_000_000
    modifies e, e.ram, e.regfile
    ensures e.Valid() && code == 0 && e.pc == old(e.pc) + 8
    ensures e.regfile[..] == old(e.regfile[..])[10 := 10] && e.ram[..] == old(e.ram[..]) && e.console == old(e.console)
  {
    hide RunLoop, Sound, ExitAt;
    ExitCall(e.cfg, e.Core());
    code := e.Run();
  }

  // ---------------------------------------------------------- main and its return

  /** In the next n steps the loop goes on. */
  predicate RunsOn(cfg: Config, c: Core, n: nat) {
    forall k :: 0 <= k < n ==>
      var d := Steps(cfg, c, k);
      d.mcycle < 1_000_000_000 && FetchWord(d.st) != 0 && !Ends(FetchWord(d.st), d.st)
  }

  lemma {:induction false} RunAfter(cfg: Config, c: Core, n: nat)
    requires RunsOn(cfg, c, n)
    ensures RunLoop(cfg, c) == RunLoop(cfg, Steps(cfg, c, n))
  {
    hide Step, FetchWord, Ends, RunLoop;
    if n == 0 {
    } else {
      RunAfter(cfg, c, n - 1);
      RunEnds(cfg, Steps(cfg, c, n - 1));
    }
  }

  lemma {:induction false} StepsSound(cfg: Config, c: Core, n: nat)
    requires Sound(cfg, c.st)
    ensures Sound(cfg, Steps(cfg, c, n).st) && Steps(cfg, c, n).st.rom == c.st.rom
  {
    hide Sound, Exec, Decode, FetchWord, Tick, HazardCycles;
    if n == 0 {
    } else {
      StepsSound(cfg, c, n - 1);
      var d := Steps(cfg, c, n - 1);
      DecodedFits(cfg, FetchWord(d.st));
      ExecSound(cfg, Current(cfg, d), d.st, Tick(Fetched(d).mcycle, HazardCycles(d.perf, Current(cfg, d))), d.minstret);
    }
  }

  lemma NextSteps(cfg: Config, c: Core, n: nat)
    ensures Steps(cfg, Step(cfg, c), n) == Steps(cfg, c, n + 1)
    ensures Steps(cfg, c, n + 2) == Step(cfg, Steps(cfg, c, n + 1))
  {
    hide Step;
    StepsAdd(cfg, c, 1, n);
    assert Steps(cfg, c, 1) == Step(cfg, Steps(cfg, c, 0));
  }

  lemma BehindCall(cfg: Config, s: State)
    requires ExitAt(s.rom, s.pc + 4)
    ensures s.pc + 12 <= 0x8_0000 && (s.pc + 4) % Range(cfg) == s.pc + 4
  {
  }

  /** The end of the start-up code: main is called through ra and returns through it after any
      number of steps, and the exit call stands behind. Then the program ends as exited, and all
      that main left is there: memory, output and every register but a0. */
  lemma MainEnds(cfg: Config, c: Core, call: Instr, n: nat, d: Core)
    requires Fetches(cfg, c, call) && (call.Jal? || call.Jalr?) && call.rd == 1 && ExitAt(c.st.rom, c.st.pc + 4)
    requires d == Steps(cfg, c, n + 1) && Fetches(cfg, d, Jalr(0, 1, 0)) && d.st.regs[1] == Step(cfg, c).st.regs[1]
    requires RunsOn(cfg, c, n + 2) && Steps(cfg, c, n + 2).mcycle + 6 < 1_000_000_000
    ensures RunLoop(cfg, c) == (Steps(cfg, c, n + 4), Exited)
    ensures Steps(cfg, c, n + 4).st == d.st.(pc := c.st.pc + 12, regs := d.st.regs[10 := 10])
  {
    hide Step, Steps, RunLoop, FetchWord, Legal, Listed, Ends, Holds;
    var e := Steps(cfg, c, n + 2);
    NextSteps(cfg, c, n);
    CallReturns(cfg, c, call, n);
    RunAfter(cfg, c, n + 2);
    StepsSound(cfg, c, n + 1);
    StepsSound(cfg, c, n + 2);
    BehindCall(cfg, c.st);
    ExitCall(cfg, e);
    StepsAdd(cfg, c, n + 2, 2);
  }
}

/** The 64-bit counter reads of sdk/librv/librv.h on the RV32 machine: high half, low
    half, high half again, and a retry when the two high halves differ. */
module Counters {
  import opened Words
  import opened Arch
  import opened Isa
  import opened Semantics
  import opened Runs
  import opened Guest

  /** `csrr rd, csr` is CSRRS with x0. */
  function QueryLoop(high: nat, low: nat, hi: Reg, lo: Reg, hi2: Reg): seq<Instr> {
    [Csr(2, hi, 0, high), Csr(2, lo, 0, low), Csr(2, hi2, 0, high), Branch(NE, hi, hi2, -12)]
  }

  /** The compiler gives the three outputs distinct registers. */
  predicate Distinct(hi: Reg, lo: Reg, hi2: Reg) {
    hi != 0 && lo != 0 && hi2 != 0 && hi != lo && hi != hi2 && lo != hi2
  }

  lemma QueryLegal(cfg: Config, high: nat, low: nat, hi: Reg, lo: Reg, hi2: Reg, k: nat)
    requires k < 4 && high < 0x1000 && low < 0x1000
    ensures Legal(cfg, QueryLoop(high, low, hi, lo, hi2)[k])
  {
  }

  lemma CsrStep(cfg: Config, c: Core, rd: Reg, csr: nat)
    requires InCode(c.st.pc) && rd != 0 && c.mcycle < TWO64
    ensures StepInstr(cfg, c, Csr(2, rd, 0, csr))
            == Core(Next(c.st).(regs := c.st.regs[rd := ReadCsr(cfg, csr, c.mcycle, c.minstret)]),
                    Perf(rd, c.perf.prevRd, false, c.perf.prevLoad, false),
                    Tick(c.mcycle, 1), Tick(c.minstret, 1))
  {
    hide Tick, Wrap, ReadCsr;
    SmallWord(cfg, c.st.pc + 4);
    TickZero(c.mcycle);
  }

  lemma RetryStep(cfg: Config, c: Core, rs1: Reg, rs2: Reg)
    requires InCode(c.st.pc) && 12 <= c.st.pc && !c.perf.prevWrite && !c.perf.prevLoad && !c.perf.prev2Load
    ensures var taken := c.st.regs[rs1] != c.st.regs[rs2];
            StepInstr(cfg, c, Branch(NE, rs1, rs2, -12))
            == Core(if taken then c.st.(pc := c.st.pc - 12) else Next(c.st),
                    Perf(0, c.perf.prevRd, false, false, false),
                    Tick(c.mcycle, 1 + Count(taken)), Tick(c.minstret, 1))
  {
    hide Tick, Wrap;
    SmallWord(cfg, c.st.pc + 4);
    SmallWord(cfg, c.st.pc - 12);
  }

  /** The three reads of one pass see the counter at three consecutive instructions. */
  function AfterReads(cfg: Config, c: Core, high: nat, low: nat, hi: Reg, lo: Reg, hi2: Reg): Regs {
    var r := c.st.regs;
    r[hi := ReadCsr(cfg, high, c.mcycle, c.minstret)]
     [lo := ReadCsr(cfg, low, Tick(c.mcycle, 1), Tick(c.minstret, 1))]
     [hi2 := ReadCsr(cfg, high, Tick(c.mcycle, 2), Tick(c.minstret, 2))]
  }

  predicate QueryReady(s: State, a: nat, high: nat, low: nat, hi: Reg, lo: Reg, hi2: Reg) {
    && CodeAt(s.rom, a, QueryLoop(high, low, hi, lo, hi2)) && s.pc == a && Distinct(hi, lo, hi2)
    && high < 0x1000 && low < 0x1000
  }

  lemma OneStep(cfg: Config, c: Core)
    ensures Steps(cfg, c, 1) == Step(cfg, c)
  {
    hide Step;
    assert Steps(cfg, c, 1) == Step(cfg, Steps(cfg, c, 0));
  }

  lemma QueryCode(rom: Rom, a: nat, high: nat, low: nat, hi: Reg, lo: Reg, hi2: Reg)
    requires CodeAt(rom, a, QueryLoop(high, low, hi, lo, hi2))
    ensures a % 4 == 0 && a + 16 <= ROM_SIZE
  {
  }

  /** One pass: three reads, then out of the loop or back to its head. */
  lemma QueryPass(cfg: Config, c: Core, a: nat, high: nat, low: nat, hi: Reg, lo: Reg, hi2: Reg)
    requires QueryReady(c.st, a, high, low, hi, lo, hi2) && c.mcycle < TWO64
    ensures var c', regs := Steps(cfg, c, 4), AfterReads(cfg, c, high, low, hi, lo, hi2);
            var retry := regs[hi] != regs[hi2];
            && c'.st == c.st.(regs := regs, pc := if retry then a else a + 16)
            && c'.mcycle == Tick(c.mcycle, 4 + Count(retry)) && c'.minstret == Tick(c.minstret, 4)
    ensures Steps(cfg, c, 1).st.pc == a + 4
    ensures Steps(cfg, c, 1).mcycle == Tick(c.mcycle, 1) && Steps(cfg, c, 1).minstret == Tick(c.minstret, 1)
  {
    hide CodeAt, Step, StepInstr, Tick, ReadCsr, Legal, Steps;
    var code := QueryLoop(high, low, hi, lo, hi2);
    QueryCode(c.st.rom, a, high, low, hi, lo, hi2);
    QueryLegal(cfg, high, low, hi, lo, hi2, 0);
    QueryLegal(cfg, high, low, hi, lo, hi2, 1);
    QueryLegal(cfg, high, low, hi, lo, hi2, 2);
    QueryLegal(cfg, high, low, hi, lo, hi2, 3);
    StepAt(cfg, c, a, code, 0);
    CsrStep(cfg, c, hi, high);
    var c1 := Step(cfg, c);
    StepAt(cfg, c1, a, code, 1);
    CsrStep(cfg, c1, lo, low);
    var c2 := Step(cfg, c1);
    TickTick(c.mcycle, 1, 1);
    TickTick(c.minstret, 1, 1);
    StepAt(cfg, c2, a, code, 2);
    CsrStep(cfg, c2, hi2, high);
    var c3 := Step(cfg, c2);
    TickTick(c.mcycle, 2, 1);
    TickTick(c.minstret, 2, 1);
    StepAt(cfg, c3, a, code, 3);
    RetryStep(cfg, c3, hi, hi2);
    TickTick(c.mcycle, 3, 1);
    TickTick(c.mcycle, 3, 2);
    TickTick(c.minstret, 3, 1);
    FourSteps(cfg, c);
    OneStep(cfg, c);
  }

  // ------------------------------------------------------- halves of a counter

  function High(x: nat): nat { x / TWO32 % TWO32 }
  function Low(x: nat): nat { x % TWO32 }

  /** The halves of a counter value. */
  lemma Halves(x: nat, h: nat, l: nat)
    requires x == h * TWO32 + l && h < TWO32 && l < TWO32
    ensures High(x) == h && Low(x) == l
  {
    DivModUnique(x, TWO32, h, l);
  }

  lemma HasHalves(x: nat) returns (h: nat, l: nat)
    requires x < TWO64
    ensures x == h * TWO32 + l && h < TWO32 && l < TWO32
  {
    h, l := x / TWO32, x % TWO32;
  }

  /** A counter n ticks on, wrapped or not. */
  lemma TickOf(x: nat, n: nat)
    requires x < TWO64 && n <= 5
    ensures Tick(x, n) == if x + n < TWO64 then x + n else x + n - TWO64
  {
    hide Wrap;
    if x + n < TWO64 {
      WrapSmall(TWO64, x + n);
    } else {
      WrapPlus(TWO64, x + n - TWO64, 1);
      WrapSmall(TWO64, x + n - TWO64);
    }
  }

  /** The high halves two ticks apart agree exactly when the low half does not wrap in
      between, and then the two halves read make up the value in the middle. */
  lemma HalvesAgree(x: nat)
    requires x < TWO64
    ensures High(x) == High(Tick(x, 2)) <==> Low(x) < TWO32 - 2
    ensures Low(x) < TWO32 - 2 ==> High(x) * TWO32 + Low(Tick(x, 1)) == Tick(x, 1)
  {
    hide Tick, High, Low;
    var h, l := HasHalves(x);
    Halves(x, h, l);
    TickOf(x, 1);
    TickOf(x, 2);
    if l < TWO32 - 2 {
      Halves(x + 1, h, l + 1);
      Halves(x + 2, h, l + 2);
    } else if h < TWO32 - 1 {
      Halves(x + 2, h + 1, l + 2 - TWO32);
    } else {
      Halves(x + 2 - TWO64, 0, l + 2 - TWO32);
    }
  }

  /** After a wrap, the low half is small. */
  lemma LowAfterWrap(x: nat, n: nat)
    requires x < TWO64 && Low(x) >= TWO32 - 2 && 2 <= n <= 5
    ensures Low(Tick(x, n)) < TWO32 - 2
  {
    hide Tick, High, Low;
    var h, l := HasHalves(x);
    Halves(x, h, l);
    TickOf(x, n);
    if h < TWO32 - 1 {
      Halves(x + n, h + 1, l + n - TWO32);
    } else {
      Halves(x + n - TWO64, 0, l + n - TWO32);
    }
  }

  // ------------------------------------------------------------- the two queries

  /** The value left in the two output registers. */
  function Result(s: State, hi: Reg, lo: Reg): nat {
    s.regs[hi] * TWO32 + s.regs[lo]
  }

  /** query_performance_counter: from any counter value at all, one or two passes leave
      the loop, and the result is the value mcycle had at the low-half read of the last
      pass (the second step of that pass). */
  lemma QueryCycles(cfg: Config, c: Core, a: nat, hi: Reg, lo: Reg, hi2: Reg)
    requires !cfg.rv64 && c.mcycle < TWO64
    requires QueryReady(c.st, a, 0xB80, 0xB00, hi, lo, hi2)
    ensures var n := if Low(c.mcycle) < TWO32 - 2 then 4 else 8;
            var c', middle := Steps(cfg, c, n), Steps(cfg, c, n - 3);
            && c'.st.pc == a + 16 && middle.st.pc == a + 4
            && Result(c'.st, hi, lo) == middle.mcycle
            && (forall r :: 0 <= r < 32 && r !in {hi, lo, hi2} ==> c'.st.regs[r] == c.st.regs[r])
            && c'.st.ram == c.st.ram && c'.st.rom == c.st.rom && c'.st.console == c.st.console
  {
    hide CodeAt, Step, Tick, Steps, QueryLoop;
    QueryPass(cfg, c, a, 0xB80, 0xB00, hi, lo, hi2);
    HalvesAgree(c.mcycle);
    if Low(c.mcycle) >= TWO32 - 2 {
      var d := Steps(cfg, c, 4);
      LowAfterWrap(c.mcycle, 5);
      QueryPass(cfg, d, a, 0xB80, 0xB00, hi, lo, hi2);
      HalvesAgree(d.mcycle);
      StepsAdd(cfg, c, 4, 4);
      StepsAdd(cfg, c, 4, 1);
    }
  }

  /** query_instruction_counter: the same for minstret. */
  lemma QueryInstructions(cfg: Config, c: Core, a: nat, hi: Reg, lo: Reg, hi2: Reg)
    requires !cfg.rv64 && c.mcycle < TWO64 && c.minstret < TWO64
    requires QueryReady(c.st, a, 0xB82, 0xB02, hi, lo, hi2)
    ensures var n := if Low(c.minstret) < TWO32 - 2 then 4 else 8;
            var c', middle := Steps(cfg, c, n), Steps(cfg, c, n - 3);
            && c'.st.pc == a + 16 && middle.st.pc == a + 4
            && Result(c'.st, hi, lo) == middle.minstret
            && (forall r :: 0 <= r < 32 && r !in {hi, lo, hi2} ==> c'.st.regs[r] == c.st.regs[r])
            && c'.st.ram == c.st.ram && c'.st.rom == c.st.rom && c'.st.console == c.st.console
  {
    hide CodeAt, Step, Tick, Steps, QueryLoop;
    QueryPass(cfg, c, a, 0xB82, 0xB02, hi, lo, hi2);
    HalvesAgree(c.minstret);
    if Low(c.minstret) >= TWO32 - 2 {
      var d := Steps(cfg, c, 4);
      LowAfterWrap(c.minstret, 4);
      QueryPass(cfg, d, a, 0xB82, 0xB02, hi, lo, hi2);
      HalvesAgree(d.minstret);
      StepsAdd(cfg, c, 4, 4);
      StepsAdd(cfg, c, 4, 1);
    }
  }
}

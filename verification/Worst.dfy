/** The costliest program: two misaligned loads and two misaligned indirect jumps, each
    waiting for the one before, in a loop that costs 18 cycles for 4 instructions. */
module Worst {
  import opened Words
  import opened Arch
  import opened Isa
  import opened Semantics
  import opened Memory
  import opened Runs
  import opened Timing

  const LOAD := Load(W, 5, 5, 0)
  const FORTH := Jalr(5, 5, 0)
  const BACK := Jalr(5, 5, -12)

  /** The program: address and word. It is entered at 0, loops from 10 and keeps at 30 and 34
      the two words that the loads chase. */
  function Program(): seq<(nat, nat)> {
    [(0, Encode(AluImm(ADD, 5, 0, 30))), (4, Encode(Jal(0, 6))),
     (10, Encode(LOAD)), (14, Encode(LOAD)), (18, Encode(FORTH)), (26, Encode(BACK)), (30, 34), (34, 26)]
  }

  // ------------------------------------------------------------------ the image

  /** Words laid over an image, the first ones first. */
  function Laid(image: Rom, words: seq<(nat, nat)>): Rom
    requires forall k :: 0 <= k < |words| ==> words[k].0 + 4 <= ROM_SIZE
  {
    if |words| == 0 then image
    else
      var last := |words| - 1;
      WriteLE(Laid(image, words[..last]), words[last].0, words[last].1, 4)
  }

  lemma {:induction false} LaidWord(image: Rom, words: seq<(nat, nat)>, k: nat)
    requires forall j :: 0 <= j < |words| ==> words[j].0 + 4 <= ROM_SIZE
    requires forall j :: k < j < |words| ==> words[k].0 + 4 <= words[j].0
    requires k < |words| && words[k].1 < TWO32
    ensures ReadLE(Laid(image, words), words[k].0, 4) == words[k].1
    decreases |words|
  {
    hide ReadLE, WriteLE, Pow2;
    var last := |words| - 1;
    var before := Laid(image, words[..last]);
    if k == last {
      ReadBack(before, words[k].0, words[k].1, 4);
      Pow2Values();
      WrapSmall(TWO32, words[k].1);
    } else {
      ReadFrame(before, words[last].0, words[last].1, 4, words[k].0, 4);
      LaidWord(image, words[..last], k);
    }
  }

  lemma ProgramFits()
    ensures forall k :: 0 <= k < |Program()| ==> Program()[k].0 + 4 <= ROM_SIZE
  {
    hide Encode;
  }

  function Image(): Rom {
    ProgramFits();
    Laid(seq(ROM_SIZE, _ => 0), Program())
  }

  predicate WordAt(rom: Rom, a: nat, w: nat) {
    a + 4 <= ROM_SIZE && ReadLE(rom, a, 4) == w
  }

  /** The loop and its data. */
  predicate LoopAt10(rom: Rom) {
    && WordAt(rom, 10, Encode(LOAD)) && WordAt(rom, 14, Encode(LOAD))
    && WordAt(rom, 18, Encode(FORTH)) && WordAt(rom, 26, Encode(BACK))
    && WordAt(rom, 30, 34) && WordAt(rom, 34, 26)
  }

  lemma AllLegal(cfg: Config)
    ensures Legal(cfg, LOAD) && Legal(cfg, FORTH) && Legal(cfg, BACK)
    ensures Legal(cfg, AluImm(ADD, 5, 0, 30)) && Legal(cfg, Jal(0, 6))
  {
  }

  lemma ImageWord(k: nat)
    requires k < |Program()| && Program()[k].1 < TWO32
    ensures WordAt(Image(), Program()[k].0, Program()[k].1)
  {
    hide Encode, Laid, ReadLE;
    ProgramFits();
    LaidWord(seq(ROM_SIZE, _ => 0), Program(), k);
  }

  lemma ImageWords(cfg: Config)
    ensures LoopAt10(Image())
    ensures WordAt(Image(), 0, Encode(AluImm(ADD, 5, 0, 30))) && WordAt(Image(), 4, Encode(Jal(0, 6)))
  {
    hide Encode, Image, WordAt, Legal;
    AllLegal(cfg);
    DecodeEncode(cfg, LOAD);
    DecodeEncode(cfg, FORTH);
    DecodeEncode(cfg, BACK);
    DecodeEncode(cfg, AluImm(ADD, 5, 0, 30));
    DecodeEncode(cfg, Jal(0, 6));
    ImageWord(0);
    ImageWord(1);
    ImageWord(2);
    ImageWord(3);
    ImageWord(4);
    ImageWord(5);
    ImageWord(6);
    ImageWord(7);
  }

  // ------------------------------------------------------- instructions anywhere

  /** At the word of an instruction, whatever its alignment, the machine executes it. */
  lemma Executes(cfg: Config, c: Core, i: Instr)
    requires WordAt(c.st.rom, c.st.pc, Encode(i)) && Legal(cfg, i)
    ensures Current(cfg, c) == i && FetchStall(c.st) == (c.st.pc % 4 != 0)
    ensures exists x, y :: Step(cfg, c).st == Exec(cfg, i, c.st, x, y)
    ensures Step(cfg, c).perf == Retire(c.perf, i)
  {
    hide Decode, Encode, ReadLE, Tick, Legal, Exec, Retire;
    DecodeEncode(cfg, i);
    StepCounters(cfg, c);
    var seen := Tick(Fetched(c).mcycle, HazardCycles(c.perf, i));
    assert Step(cfg, c).st == Exec(cfg, i, c.st, seen, c.minstret);
  }

  lemma LoadedSmall(cfg: Config, v: nat)
    requires v < 0x8000_0000
    ensures Extend(cfg.Modulus(), W, v) == v
  {
    WrapSmall(cfg.Modulus(), v);
  }

  /** A load of x5 through itself, from a misaligned ROM address. */
  lemma LoadStep(cfg: Config, c: Core, v: nat)
    requires WordAt(c.st.rom, c.st.pc, Encode(LOAD)) && c.st.pc % 4 != 0
    requires WordAt(c.st.rom, c.st.regs[5], v) && c.st.regs[5] % 4 != 0 && v < 0x8000_0000
    ensures Step(cfg, c).st == c.st.(pc := c.st.pc + 4, regs := c.st.regs[5 := v])
    ensures Cost(cfg, c) == 3 + LoadUseCycles(c.perf, 5, 0)
    ensures Step(cfg, c).perf == Perf(5, c.perf.prevRd, true, c.perf.prevLoad, true)
  {
    hide Encode, ReadLE, Wrap, LoadUseCycles, Step, Current, Signed;
    AllLegal(cfg);
    Executes(cfg, c, LOAD);
    SmallWord(cfg, c.st.pc + 4);
    SmallWord(cfg, c.st.regs[5]);
    LoadedSmall(cfg, v);
  }

  /** A jump through x5 that links in x5. */
  lemma TurnStep(cfg: Config, c: Core, imm: int)
    requires WordAt(c.st.rom, c.st.pc, Encode(Jalr(5, 5, imm))) && c.st.pc % 4 != 0 && -12 <= imm <= 0
    requires 0 <= c.st.regs[5] + imm < TWO32 && (c.st.regs[5] + imm) % 2 == 0
    ensures Step(cfg, c).st == c.st.(pc := c.st.regs[5] + imm, regs := c.st.regs[5 := c.st.pc + 4])
    ensures Cost(cfg, c) == 3 + BranchUseCycles(c.perf, 5, 0)
    ensures Step(cfg, c).perf == Perf(5, c.perf.prevRd, false, c.perf.prevLoad, true)
  {
    hide Encode, ReadLE, Wrap, BranchUseCycles, Step, Current;
    Executes(cfg, c, Jalr(5, 5, imm));
    SmallWord(cfg, c.st.pc + 4);
    SmallWord(cfg, c.st.regs[5] + imm);
  }

  // -------------------------------------------------------------------- the loop

  /** At the head of the loop, with no load in the pipeline. */
  predicate AtHead(c: Core) {
    LoopAt10(c.st.rom) && c.st.pc == 10 && c.st.regs[5] == 30 && !c.perf.prevLoad && !c.perf.prev2Load
  }

  /** One round costs 3, 4, 6 and 5 cycles and ends where it began. */
  lemma Round(cfg: Config, c: Core)
    requires AtHead(c)
    ensures var c1 := Step(cfg, c);
            var c2 := Step(cfg, c1);
            var c3 := Step(cfg, c2);
            && Step(cfg, c3).st == c.st && AtHead(Step(cfg, c3))
            && Cost(cfg, c) == 3 && Cost(cfg, c1) == 4 && Cost(cfg, c2) == 6 && Cost(cfg, c3) == 5
  {
    hide WordAt, Step, Cost, Encode;
    LoadStep(cfg, c, 34);
    var c1 := Step(cfg, c);
    LoadStep(cfg, c1, 26);
    var c2 := Step(cfg, c1);
    TurnStep(cfg, c2, 0);
    var c3 := Step(cfg, c2);
    TurnStep(cfg, c3, -12);
    assert Step(cfg, c3).st.regs == c.st.regs;
  }

  lemma OneMore(cfg: Config, c: Core, n: nat)
    ensures Steps(cfg, c, n + 1) == Step(cfg, Steps(cfg, c, n))
  {
    hide Step;
  }

  /** Four more steps of a run. */
  lemma NextFour(cfg: Config, c: Core, n: nat)
    ensures var d := Steps(cfg, c, n);
            Steps(cfg, c, n + 4) == Step(cfg, Step(cfg, Step(cfg, Step(cfg, d))))
    ensures c.perf == FRESH && c.mcycle < TWO64 ==>
              TotalCost(Trace(cfg, c, n + 4), n + 4)
              == TotalCost(Trace(cfg, c, n), n) + Cost(cfg, Steps(cfg, c, n)) + Cost(cfg, Steps(cfg, c, n + 1))
                 + Cost(cfg, Steps(cfg, c, n + 2)) + Cost(cfg, Steps(cfg, c, n + 3))
    ensures Steps(cfg, c, n + 1) == Step(cfg, Steps(cfg, c, n))
    ensures Steps(cfg, c, n + 2) == Step(cfg, Steps(cfg, c, n + 1))
    ensures Steps(cfg, c, n + 3) == Step(cfg, Steps(cfg, c, n + 2))
  {
    hide Step, Cost, TotalCost, Trace;
    OneMore(cfg, c, n);
    OneMore(cfg, c, n + 1);
    OneMore(cfg, c, n + 2);
    OneMore(cfg, c, n + 3);
    if c.perf == FRESH && c.mcycle < TWO64 {
      TraceStep(cfg, c, n);
      TraceStep(cfg, c, n + 1);
      TraceStep(cfg, c, n + 2);
      TraceStep(cfg, c, n + 3);
    }
  }

  /** Rounds of a run whose first n steps reach the head of the loop. */
  lemma {:induction false} Rounds(cfg: Config, c: Core, n: nat, rounds: nat)
    requires c.perf == FRESH && c.mcycle < TWO64 && AtHead(Steps(cfg, c, n))
    ensures Steps(cfg, c, n + 4 * rounds).st == Steps(cfg, c, n).st && AtHead(Steps(cfg, c, n + 4 * rounds))
    ensures TotalCost(Trace(cfg, c, n + 4 * rounds), n + 4 * rounds) == TotalCost(Trace(cfg, c, n), n) + 18 * rounds
    decreases rounds
  {
    hide AtHead, Steps, Step, Cost, TotalCost, Trace;
    if rounds == 0 {
    } else {
      Rounds(cfg, c, n, rounds - 1);
      var m := n + 4 * (rounds - 1);
      NextFour(cfg, c, m);
      Round(cfg, Steps(cfg, c, m));
    }
  }

  lemma NoSteps(cfg: Config, c: Core)
    ensures Steps(cfg, c, 0) == c && TotalCost(Trace(cfg, c, 0), 0) == 0
  {
  }

  /** The bound of 9/2 cycles for an instruction is attained by runs of any number of rounds:
      entered at its head with a fresh pipeline, the loop takes exactly 18 cycles for every 4
      instructions and leaves the architectural state as it was. */
  lemma WorstCase(cfg: Config, c: Core, rounds: nat)
    requires AtHead(c) && c.perf == FRESH && c.mcycle < TWO64
    ensures Steps(cfg, c, 4 * rounds).st == c.st
    ensures Steps(cfg, c, 4 * rounds).mcycle == Tick(c.mcycle, 18 * rounds)
    ensures 2 * TotalCost(Trace(cfg, c, 4 * rounds), 4 * rounds) == 9 * (4 * rounds)
  {
    hide AtHead, Steps, TotalCost, Trace, Tick;
    NoSteps(cfg, c);
    Rounds(cfg, c, 0, rounds);
    CycleAccount(cfg, c, 4 * rounds);
  }

  /** Such a machine exists: the program with x5 at its first word. */
  lemma HeadExists(cfg: Config)
    ensures AtHead(Core(State(seq(32, k => if k == 5 then 30 else 0), 10, seq(RAM_SIZE, _ => 0), Image(), []),
                        FRESH, 4, 0))
  {
    hide LoopAt10, Image;
    ImageWords(cfg);
  }

  // ---------------------------------------------------------------- from power-on

  lemma EntryStep(cfg: Config, c: Core)
    requires c.st.pc == 0 && c.st.regs[0] == 0 && WordAt(c.st.rom, 0, Encode(AluImm(ADD, 5, 0, 30))) && !c.perf.prevLoad
    ensures Step(cfg, c).st == c.st.(pc := 4, regs := c.st.regs[5 := 30])
    ensures Cost(cfg, c) == 1 && Step(cfg, c).perf == Perf(5, c.perf.prevRd, false, false, true)
  {
    hide Encode, ReadLE, Wrap, Step, Current;
    AllLegal(cfg);
    Executes(cfg, c, AluImm(ADD, 5, 0, 30));
    SmallWord(cfg, 4);
    SmallWord(cfg, 30);
  }

  lemma LeapStep(cfg: Config, c: Core)
    requires c.st.pc == 4 && WordAt(c.st.rom, 4, Encode(Jal(0, 6)))
    ensures Step(cfg, c).st == c.st.(pc := 10)
    ensures Cost(cfg, c) == 2 && Step(cfg, c).perf == Perf(0, c.perf.prevRd, false, c.perf.prevLoad, true)
  {
    hide Encode, ReadLE, Wrap, Step, Current;
    AllLegal(cfg);
    Executes(cfg, c, Jal(0, 6));
    SmallWord(cfg, 10);
    SmallWord(cfg, 8);
  }

  lemma AtLoop(c: Core)
    requires LoopAt10(c.st.rom) && c.st.pc == 10 && c.st.regs[5] == 30 && !c.perf.prevLoad && !c.perf.prev2Load
    ensures AtHead(c)
  {
  }

  /** From power-on, two instructions lead to the loop, so whole runs come within 6 cycles of
      the bound at every length of the form 4k + 2. */
  lemma WorstRun(cfg: Config, rounds: nat)
    ensures var n := 2 + 4 * rounds;
            var c := Steps(cfg, Reset(Image()), n);
            && 2 * TotalCost(Trace(cfg, Reset(Image()), n), n) == 9 * n - 12
            && c.mcycle == Tick(4, 3 + 18 * rounds) && c.minstret == n % TWO64
  {
    hide AtHead, Encode, Image, TotalCost, Trace, Tick, WordAt, LoopAt10, Cost, Step;
    var c := Reset(Image());
    ImageWords(cfg);
    EntryStep(cfg, c);
    LeapStep(cfg, Step(cfg, c));
    assert Steps(cfg, c, 1) == Step(cfg, Steps(cfg, c, 0));
    assert Steps(cfg, c, 2) == Step(cfg, Steps(cfg, c, 1));
    AtLoop(Steps(cfg, c, 2));
    NoSteps(cfg, c);
    TraceStep(cfg, c, 0);
    TraceStep(cfg, c, 1);
    Rounds(cfg, c, 2, rounds);
    CycleAccount(cfg, c, 2 + 4 * rounds);
    WholeRun(cfg, Image(), 2 + 4 * rounds);
  }
}

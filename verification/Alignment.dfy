/** Transfers of control to addresses that are no multiple of 4: the Unprivileged ISA raises an
    exception there (sections 2.2 and 2.5), the emulator goes on; and what follows for runs in
    which no exception is due. */
module Alignment {
  import opened Words
  import opened Arch
  import opened Isa
  import opened Semantics
  import opened Runs
  import opened Timing
  import opened Worst

  /** The address that a branch or a jump names, before it is cut to XLEN bits. */
  function Named(i: Instr, s: State): int
    requires i.Branch? || i.Jal? || i.Jalr?
  {
    match i
    case Branch(_, _, _, imm) => s.pc + imm
    case Jal(_, imm) => s.pc + imm
    case Jalr(_, rs1, imm) => s.regs[rs1] + imm
  }

  /** Where the ISA raises instruction-address-misaligned: on a branch that is taken, or on a
      jump, if the target, whose lowest bit JALR clears, is no multiple of 4. */
  predicate Raises(cfg: Config, i: Instr, s: State) {
    match i
    case Branch(cond, rs1, rs2, _) => CondHolds(cfg.Modulus(), cond, s.regs[rs1], s.regs[rs2]) && Named(i, s) % 4 != 0
    case Jal(_, _) => Named(i, s) % 4 != 0
    case Jalr(_, _, _) => Named(i, s) % 4 >= 2
    case _ => false
  }

  lemma RemTwo(x: int, q: int, r: nat)
    requires x == 2 * q + r && r < 2
    ensures x % 2 == r
  {
  }

  lemma RemFour(x: int, q: int, r: nat)
    requires x == 4 * q + r && r < 4
    ensures x % 4 == r
  {
  }

  lemma WrapFour(m: int, x: int)
    requires m == TWO32 || m == TWO64
    ensures Wrap(m, x) % 4 == x % 4
  {
    var k, w := x / m, Wrap(m, x);
    if m == TWO32 {
      assert x == k * TWO32 + w;
      RemFour(x, k * 0x4000_0000 + w / 4, w % 4);
    } else {
      assert x == k * TWO64 + w;
      RemFour(x, k * 0x4000_0000_0000_0000 + w / 4, w % 4);
    }
  }

  lemma Cleared(x: nat)
    ensures (x - x % 2) % 4 == 0 <==> x % 4 < 2
  {
    var q, r := x / 4, x % 4;
    var half, bit := if r >= 2 then 1 else 0, if r == 1 || r == 3 then 1 else 0;
    RemTwo(x, 2 * q + half, bit);
    RemFour(x - bit, q, 2 * half);
  }

  lemma LoadPc(cfg: Config, s: State, mem: MemOp, rd: Reg, addr: nat)
    ensures ExecLoad(cfg, s, mem, rd, addr).pc == s.pc
  {
    hide Extend, Peek, Mapped;
  }

  lemma StorePc(s: State, mem: MemOp, addr: nat, v: nat)
    ensures ExecStore(s, mem, addr, v).pc == s.pc
  {
    hide WriteLE, InRam;
  }

  /** From an aligned pc, an instruction leads to an aligned pc exactly when the ISA would not
      raise. */
  lemma ExecAligned(cfg: Config, i: Instr, s: State, mcycle: nat, minstret: nat)
    requires s.pc % 4 == 0
    ensures Exec(cfg, i, s, mcycle, minstret).pc % 4 == 0 <==> !Raises(cfg, i, s)
  {
    hide Wrap, AluOf, ReadCsr, CondHolds, ExecLoad, ExecStore;
    var m := cfg.Modulus();
    WrapFour(m, s.pc + 4);
    match i
    case Load(mem, rd, rs1, imm) => LoadPc(cfg, s.(pc := Wrap(m, s.pc + 4)), mem, rd, Address(cfg, s, rs1, imm));
    case Store(mem, rs1, rs2, imm) => StorePc(s.(pc := Wrap(m, s.pc + 4)), mem, Address(cfg, s, rs1, imm), s.regs[rs2]);
    case Branch(_, _, _, imm) => WrapFour(m, s.pc + imm);
    case Jal(_, imm) => WrapFour(m, s.pc + imm);
    case Jalr(_, rs1, imm) =>
      WrapFour(m, s.regs[rs1] + imm);
      Cleared(Address(cfg, s, rs1, imm));
    case _ =>
  }

  /** The ISA would raise in the next step. */
  predicate RaisesNext(cfg: Config, c: Core) {
    Raises(cfg, Current(cfg, c), c.st)
  }

  lemma StepAligned(cfg: Config, c: Core)
    requires c.st.pc % 4 == 0
    ensures Step(cfg, c).st.pc % 4 == 0 <==> !RaisesNext(cfg, c)
    ensures !FetchStall(c.st)
  {
    hide Exec, Decode, Raises, FetchWord;
    ExecAligned(cfg, Current(cfg, c), c.st, Tick(Fetched(c).mcycle, HazardCycles(c.perf, Current(cfg, c))), c.minstret);
  }

  /** In the first n steps the ISA would not raise. */
  predicate NeverRaises(cfg: Config, c: Core, n: nat) {
    forall k :: 0 <= k < n ==> !RaisesNext(cfg, Steps(cfg, c, k))
  }

  /** Throughout the first n steps pc is a multiple of 4. */
  predicate StaysAligned(cfg: Config, c: Core, n: nat) {
    forall k :: 0 <= k <= n ==> Steps(cfg, c, k).st.pc % 4 == 0
  }

  lemma OneStepMore(cfg: Config, c: Core, n: nat)
    ensures NeverRaises(cfg, c, n + 1) <==> NeverRaises(cfg, c, n) && !RaisesNext(cfg, Steps(cfg, c, n))
    ensures StaysAligned(cfg, c, n + 1) <==> StaysAligned(cfg, c, n) && Step(cfg, Steps(cfg, c, n)).st.pc % 4 == 0
    ensures StaysAligned(cfg, c, n) ==> Steps(cfg, c, n).st.pc % 4 == 0
  {
    hide Step, RaisesNext;
    assert Steps(cfg, c, n + 1) == Step(cfg, Steps(cfg, c, n));
  }

  /** Whole runs from an aligned pc: pc stays aligned exactly when the ISA would not raise. */
  lemma {:induction false} RunAligned(cfg: Config, c: Core, n: nat)
    requires c.st.pc % 4 == 0
    ensures StaysAligned(cfg, c, n) <==> NeverRaises(cfg, c, n)
  {
    hide Step, RaisesNext;
    if n == 0 {
    } else {
      hide Steps;
      RunAligned(cfg, c, n - 1);
      OneStepMore(cfg, c, n - 1);
      if StaysAligned(cfg, c, n - 1) {
        StepAligned(cfg, Steps(cfg, c, n - 1));
      }
    }
  }

  /** Then no fetch stalls, not even the next. */
  lemma NoFetchStall(cfg: Config, c: Core, n: nat)
    requires c.st.pc % 4 == 0 && NeverRaises(cfg, c, n)
    ensures forall k :: 0 <= k <= n ==> !FetchStall(Steps(cfg, c, k).st)
  {
    hide Steps, NeverRaises;
    RunAligned(cfg, c, n);
  }

  // ---------------------------------------------------------------------- cycles

  /** A trace with every fetch made to stall. */
  function Stalled(tr: seq<Event>): (r: seq<Event>)
    ensures |r| == |tr|
  {
    seq(|tr|, k requires 0 <= k < |tr| => tr[k].(fetchStall := true))
  }

  lemma StallCosts(p: Perf, e: Event)
    requires !e.fetchStall
    ensures EventCost(p, e.(fetchStall := true)) == EventCost(p, e) + 1
  {
    hide HazardCycles;
  }

  lemma SameRecord(tr: seq<Event>, k: nat)
    requires k <= |tr|
    ensures PerfBefore(Stalled(tr), k) == PerfBefore(tr, k)
    ensures k < |tr| ==> Stalled(tr)[k] == tr[k].(fetchStall := true)
  {
    hide RdOf, WritesReg;
  }

  lemma {:induction false} StalledCost(tr: seq<Event>, k: nat)
    requires k <= |tr| && forall j :: 0 <= j < |tr| ==> !tr[j].fetchStall
    ensures TotalCost(Stalled(tr), k) == TotalCost(tr, k) + k
  {
    hide EventCost, PerfBefore, Stalled;
    if k == 0 {
    } else {
      StalledCost(tr, k - 1);
      SameRecord(tr, k - 1);
      StallCosts(PerfBefore(tr, k - 1), tr[k - 1]);
    }
  }

  lemma {:induction false} TraceStalls(cfg: Config, c: Core, n: nat)
    requires forall k :: 0 <= k < n ==> !FetchStall(Steps(cfg, c, k).st)
    ensures forall k :: 0 <= k < n ==> !Trace(cfg, c, n)[k].fetchStall
  {
    hide Step, FetchStall, DataStall, Taken, Current;
    if n == 0 {
    } else {
      TraceStalls(cfg, c, n - 1);
    }
  }

  lemma StalledPlausible(tr: seq<Event>)
    requires forall j :: 0 <= j < |tr| ==> Plausible(tr[j])
    ensures forall j :: 0 <= j < |tr| ==> Plausible(Stalled(tr)[j])
  {
  }

  /** n instructions during which the ISA would not raise take at most 7n/2 cycles, a whole
      cycle each less than the bound of TotalCostBounds. */
  lemma ConformingCycles(cfg: Config, c: Core, n: nat)
    requires c.st.pc % 4 == 0 && NeverRaises(cfg, c, n)
    ensures 2 * TotalCost(Trace(cfg, c, n), n) <= 7 * n
  {
    hide Steps, NeverRaises, FetchStall, TotalCost, Trace, Plausible, Stalled;
    var tr := Trace(cfg, c, n);
    NoFetchStall(cfg, c, n);
    TraceStalls(cfg, c, n);
    TracePlausible(cfg, c, n);
    StalledPlausible(tr);
    StalledCost(tr, n);
    TotalCostBounds(Stalled(tr));
  }

  /** A run of main in whose instructions the ISA would not raise: the final fetch of a zero
      word does not stall either, so mcycle is the cost of the trace alone. */
  lemma ConformingRun(cfg: Config, image: Rom)
    ensures var c := RunLoop(cfg, Reset(image)).0;
            var n := c.minstret;
            NeverRaises(cfg, Reset(image), n) ==>
              c.mcycle == 4 + TotalCost(Trace(cfg, Reset(image), n), n) && 2 * (c.mcycle - 4) <= 7 * n
  {
    hide RunLoop, Steps, NeverRaises, FetchStall, TotalCost, Trace;
    var n := RunLoop(cfg, Reset(image)).0.minstret;
    RunLoopAccount(cfg, image);
    if NeverRaises(cfg, Reset(image), n) {
      NoFetchStall(cfg, Reset(image), n);
      ConformingCycles(cfg, Reset(image), n);
    }
  }

  // ----------------------------------------------------------------- one that fails

  /** JAL at 4 names 10: the ISA raises, the emulator goes there, and the next fetch stalls. */
  lemma JumpToTen(cfg: Config)
    ensures var c := Steps(cfg, Reset(Image()), 1);
            && c.st.pc == 4 && Current(cfg, c) == Jal(0, 6) && RaisesNext(cfg, c)
            && Step(cfg, c).st.pc == 10 && FetchStall(Step(cfg, c).st)
  {
    hide AtHead, Encode, Image, WordAt, LoopAt10, Cost, Step, Current;
    var c := Reset(Image());
    ImageWords(cfg);
    EntryStep(cfg, c);
    assert Steps(cfg, c, 1) == Step(cfg, Steps(cfg, c, 0));
    AllLegal(cfg);
    Executes(cfg, Step(cfg, c), Jal(0, 6));
    LeapStep(cfg, Step(cfg, c));
  }
}

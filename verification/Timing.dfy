/** The cycle account of whole runs: which cycles a run is charged, how few and how many
    that can be, and that they never leak into the architectural state. */
module Timing {
  import opened Words
  import opened Arch
  import opened Isa
  import opened Semantics
  import opened Runs

  // ------------------------------------------------------------------ the trace

  /** All that the timing model may look at in one retired instruction. */
  datatype Event = Event(instr: Instr, fetchStall: bool, dataStall: bool, taken: bool)

  function EventOf(cfg: Config, c: Core): Event {
    var i := Current(cfg, c);
    Event(i, FetchStall(c.st), DataStall(cfg, i, c.st), Taken(cfg, i, c.st))
  }

  function Trace(cfg: Config, c: Core, n: nat): (tr: seq<Event>)
    ensures |tr| == n
  {
    if n == 0 then [] else Trace(cfg, c, n - 1) + [EventOf(cfg, Steps(cfg, c, n - 1))]
  }

  /** The pipeline record before event k, read off events k-1 and k-2 alone. */
  function PerfBefore(tr: seq<Event>, k: nat): Perf
    requires k <= |tr|
  {
    Perf(if k >= 1 then RdOf(tr[k - 1].instr) else 0,
         if k >= 2 then RdOf(tr[k - 2].instr) else 0,
         k >= 1 && tr[k - 1].instr.Load?,
         k >= 2 && tr[k - 2].instr.Load?,
         k >= 1 && WritesReg(tr[k - 1].instr))
  }

  function EventCost(p: Perf, e: Event): nat {
    Count(e.fetchStall) + HazardCycles(p, e.instr) + Count(e.dataStall) + Count(e.taken) + 1
  }

  /** The cycles of the first k events. */
  function TotalCost(tr: seq<Event>, k: nat): nat
    requires k <= |tr|
  {
    if k == 0 then 0 else TotalCost(tr, k - 1) + EventCost(PerfBefore(tr, k - 1), tr[k - 1])
  }

  lemma {:induction false} TotalCostPrefix(tr: seq<Event>, tr': seq<Event>, k: nat)
    requires k <= |tr| && k <= |tr'| && tr[..k] == tr'[..k]
    ensures TotalCost(tr, k) == TotalCost(tr', k)
  {
    hide EventCost;
    if k == 0 {
    } else {
      assert forall j :: 0 <= j < k ==> tr[j] == tr[..k][j] && tr'[j] == tr'[..k][j];
      assert tr[..k - 1] == tr'[..k - 1];
      TotalCostPrefix(tr, tr', k - 1);
    }
  }

  /** The exact cycle account: the mutable pipeline record is always the function of the
      last two retired instructions, and the counter is its start plus the trace's cost. */
  lemma {:induction false} CycleAccount(cfg: Config, c: Core, n: nat)
    requires c.perf == FRESH && c.mcycle < TWO64
    ensures Steps(cfg, c, n).perf == PerfBefore(Trace(cfg, c, n), n)
    ensures Steps(cfg, c, n).mcycle == Tick(c.mcycle, TotalCost(Trace(cfg, c, n), n))
  {
    hide Step, Tick, RdOf, WritesReg, HazardCycles, FetchStall, DataStall, Taken, Current;
    if n == 0 {
      TickZero(c.mcycle);
    } else {
      CycleAccount(cfg, c, n - 1);
      var d, tr, tr' := Steps(cfg, c, n - 1), Trace(cfg, c, n), Trace(cfg, c, n - 1);
      StepCounters(cfg, d);
      assert tr[..n - 1] == tr'[..n - 1] == tr' && tr[n - 1] == EventOf(cfg, d);
      TotalCostPrefix(tr, tr', n - 1);
      assert PerfBefore(tr, n - 1) == PerfBefore(tr', n - 1);
      TickTick(c.mcycle, TotalCost(tr, n - 1), Cost(cfg, d));
    }
  }

  // ------------------------------------------------------------------ the bounds

  /** Only memory accesses stall on data alignment and only transfers are taken. */
  predicate Plausible(e: Event) {
    && (e.dataStall ==> e.instr.Load? || e.instr.Store?)
    && (e.taken ==> e.instr.Branch? || e.instr.Jal? || e.instr.Jalr?)
  }

  lemma EventsPlausible(cfg: Config, c: Core)
    ensures Plausible(EventOf(cfg, c))
  {
    hide Current, Mapped, InRam, CondHolds, FetchStall;
  }

  lemma {:induction false} TracePlausible(cfg: Config, c: Core, n: nat)
    ensures forall k :: 0 <= k < n ==> Plausible(Trace(cfg, c, n)[k])
  {
    hide Step, EventOf, Plausible;
    if n == 0 {
    } else {
      TracePlausible(cfg, c, n - 1);
      EventsPlausible(cfg, Steps(cfg, c, n - 1));
    }
  }

  /** Twice the debt that the pipeline record lets the next instructions run up. */
  function Debt(p: Perf): int {
    if p.prevLoad then (if p.prev2Load then 1 else 0)
    else if p.prev2Load then -2
    else -3
  }

  lemma DebtStep(p: Perf, e: Event)
    requires Plausible(e) && (p.prevLoad ==> p.prevWrite)
    ensures 2 * EventCost(p, e) + Debt(Retire(p, e.instr)) <= 9 + Debt(p)
    ensures Retire(p, e.instr).prevLoad ==> Retire(p, e.instr).prevWrite
  {
    hide Uses, Rs1Of, Rs2Of, RdOf;
  }

  lemma RetireBefore(tr: seq<Event>, k: nat)
    requires k < |tr|
    ensures Retire(PerfBefore(tr, k), tr[k].instr) == PerfBefore(tr, k + 1)
  {
    hide RdOf, WritesReg;
  }

  lemma DebtOfFresh()
    ensures Debt(Perf(0, 0, false, false, false)) == -3
  {
  }

  lemma CostPositive(p: Perf, e: Event)
    ensures 1 <= EventCost(p, e)
  {
  }

  lemma {:induction false} DebtBound(tr: seq<Event>, k: nat)
    requires k <= |tr| && forall j :: 0 <= j < |tr| ==> Plausible(tr[j])
    ensures var p := PerfBefore(tr, k);
            2 * TotalCost(tr, k) + Debt(p) <= 9 * k - 3 && (p.prevLoad ==> p.prevWrite)
    ensures k <= TotalCost(tr, k)
  {
    hide EventCost, Debt, Retire, Plausible;
    if k == 0 {
      DebtOfFresh();
    } else {
      DebtBound(tr, k - 1);
      DebtStep(PerfBefore(tr, k - 1), tr[k - 1]);
      RetireBefore(tr, k - 1);
      CostPositive(PerfBefore(tr, k - 1), tr[k - 1]);
    }
  }

  lemma DebtFloor(p: Perf)
    ensures -3 <= Debt(p)
  {
  }

  /** n instructions from a fresh pipeline take at least n and at most 9n/2 cycles. */
  lemma TotalCostBounds(tr: seq<Event>)
    requires forall j :: 0 <= j < |tr| ==> Plausible(tr[j])
    ensures |tr| <= TotalCost(tr, |tr|) && 2 * TotalCost(tr, |tr|) <= 9 * |tr|
  {
    DebtBound(tr, |tr|);
    DebtFloor(PerfBefore(tr, |tr|));
  }

  /** One more step of a run adds its own cost to the cost of the trace. */
  lemma TraceStep(cfg: Config, c: Core, n: nat)
    requires c.perf == FRESH && c.mcycle < TWO64
    ensures TotalCost(Trace(cfg, c, n + 1), n + 1) == TotalCost(Trace(cfg, c, n), n) + Cost(cfg, Steps(cfg, c, n))
  {
    hide Step, Tick, RdOf, WritesReg, HazardCycles, FetchStall, DataStall, Taken, Current;
    CycleAccount(cfg, c, n);
    var tr, tr' := Trace(cfg, c, n + 1), Trace(cfg, c, n);
    assert tr[..n] == tr'[..n] == tr' && tr[n] == EventOf(cfg, Steps(cfg, c, n));
    TotalCostPrefix(tr, tr', n);
    assert PerfBefore(tr, n) == PerfBefore(tr', n);
  }

  /** From power-on, while no counter has wrapped: mcycle is 4 plus the cost of the trace,
      which lies between minstret and 9/2 minstret. */
  lemma RunCycles(cfg: Config, image: Rom, n: nat)
    requires 4 + 5 * n < TWO64
    ensures var c := Steps(cfg, Reset(image), n);
            && c.mcycle == 4 + TotalCost(Trace(cfg, Reset(image), n), n)
            && c.minstret == n
            && 4 + c.minstret <= c.mcycle && 2 * (c.mcycle - 4) <= 9 * c.minstret
  {
    hide Steps, Trace, TotalCost, Plausible, Sound;
    var tr := Trace(cfg, Reset(image), n);
    CycleAccount(cfg, Reset(image), n);
    TracePlausible(cfg, Reset(image), n);
    TotalCostBounds(tr);
    WholeRun(cfg, image, n);
    TickSmall(4, TotalCost(tr, n));
  }

  /** The account of a whole program run, from power-on to whichever end main reaches: the
      cost of as many instructions as minstret says; only a misaligned fetch of a final zero
      word is charged on top. */
  lemma RunLoopAccount(cfg: Config, image: Rom)
    ensures var (c, ending) := RunLoop(cfg, Reset(image));
            var n := c.minstret;
            var cost := TotalCost(Trace(cfg, Reset(image), n), n);
            && c.st == Steps(cfg, Reset(image), n).st && c.st.rom == image
            && c.mcycle == 4 + cost + (if ending == ZeroWord then Count(FetchStall(c.st)) else 0)
            && n <= cost && 2 * cost <= 9 * n
            && 4 + n <= c.mcycle <= MAX_CYCLES + 5
  {
    hide RunLoop, Steps, Trace, TotalCost, Sound, FetchStall;
    var n := RunLoopIsSteps(cfg, Reset(image));
    RunCycles(cfg, image, n);
    WholeRun(cfg, image, n);
    RunLoopBounds(cfg, Reset(image));
    TickSmall(Steps(cfg, Reset(image), n).mcycle, Count(FetchStall(Steps(cfg, Reset(image), n).st)));
  }

  lemma HazardBound(p: Perf, i: Instr)
    ensures HazardCycles(p, i) <= 3
  {
  }

  /** Within the run loop the high halves of the RV32 counters read as zero, at the moment
      any instruction could read them. */
  lemma HighHalvesZero(cfg: Config, c: Core, csr: nat)
    requires c.mcycle < MAX_CYCLES && c.minstret <= c.mcycle && csr in {0xB80, 0xB82, 0xC80, 0xC82}
    ensures ReadCsr(cfg, csr, Tick(Fetched(c).mcycle, HazardCycles(c.perf, Current(cfg, c))), c.minstret) == 0
  {
    hide Current, FetchStall, HazardCycles;
    HazardBound(c.perf, Current(cfg, c));
    TickSmall(c.mcycle, Count(FetchStall(c.st)));
    TickSmall(Fetched(c).mcycle, HazardCycles(c.perf, Current(cfg, c)));
  }

  /** The same for every state that main's loop can reach: it takes at most MAX_CYCLES steps. */
  lemma HighHalvesInRun(cfg: Config, image: Rom, n: nat, csr: nat)
    requires n <= MAX_CYCLES && Steps(cfg, Reset(image), n).mcycle < MAX_CYCLES
    requires csr in {0xB80, 0xB82, 0xC80, 0xC82}
    ensures var c := Steps(cfg, Reset(image), n);
            ReadCsr(cfg, csr, Tick(Fetched(c).mcycle, HazardCycles(c.perf, Current(cfg, c))), c.minstret) == 0
  {
    hide Steps, ReadCsr, Tick, Fetched, HazardCycles, Current, Trace, TotalCost;
    RunCycles(cfg, image, n);
    HighHalvesZero(cfg, Steps(cfg, Reset(image), n), csr);
  }

  // ------------------------------------------------------------- non-interference

  /** The one way timing can reach a register: a CSR instruction that reads cycles. */
  predicate ReadsCycles(i: Instr) {
    i.Csr? && i.rd != 0 && i.funct3 != 4 && i.csr in {0xB00, 0xC00, 0xB80, 0xC80}
  }

  lemma ExecIgnoresCycles(cfg: Config, i: Instr, s: State, cycles: nat, cycles': nat, minstret: nat)
    requires !ReadsCycles(i)
    ensures Exec(cfg, i, s, cycles, minstret) == Exec(cfg, i, s, cycles', minstret)
  {
    hide AluOf, Wrap, ExecLoad, ExecStore, Taken, Address;
  }

  /** Two machines that differ only in cycle count and pipeline record stay equal in
      everything else for as long as no instruction reads the cycle counter. */
  lemma {:induction false} NonInterference(cfg: Config, c: Core, c': Core, n: nat)
    requires c.st == c'.st && c.minstret == c'.minstret
    requires forall k :: 0 <= k < n ==> !ReadsCycles(Current(cfg, Steps(cfg, c, k)))
    ensures Steps(cfg, c, n).st == Steps(cfg, c', n).st
    ensures Steps(cfg, c, n).minstret == Steps(cfg, c', n).minstret
  {
    hide Exec, Decode, FetchWord, HazardCycles, DataStall, Taken, FetchStall, Retire, Tick, ReadsCycles;
    if n == 0 {
    } else {
      NonInterference(cfg, c, c', n - 1);
      var d, d' := Steps(cfg, c, n - 1), Steps(cfg, c', n - 1);
      var i := Current(cfg, d);
      var seen := Tick(Fetched(d).mcycle, HazardCycles(d.perf, i));
      var seen' := Tick(Fetched(d').mcycle, HazardCycles(d'.perf, i));
      ExecIgnoresCycles(cfg, i, d.st, seen, seen', d.minstret);
    }
  }
}

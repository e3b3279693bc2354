/** What each instruction costs, in numbers: the registers it reads, the results that are not
    ready for it, the accesses and fetches that cross their alignment, the transfers it takes. */
module Latency {
  import opened Arch
  import opened Isa
  import opened Semantics
  import opened Runs
  import opened Listing
  import opened Effects

  /** The registers that an instruction waits for. */
  function Reads(i: Instr): set<Reg> {
    match i
    case Alu(_, _, rs1, rs2) => {rs1, rs2} - {0}
    case AluW(_, _, rs1, rs2) => {rs1, rs2} - {0}
    case AluImm(_, _, rs1, _) => {rs1} - {0}
    case AluImmW(_, _, rs1, _) => {rs1} - {0}
    case Load(_, _, rs1, _) => {rs1} - {0}
    case Store(_, rs1, rs2, _) => {rs1, rs2} - {0}
    case Branch(_, rs1, rs2, _) => {rs1, rs2} - {0}
    case Jalr(_, rs1, _) => {rs1} - {0}
    case Csr(1, _, rs1, _) => {rs1} - {0}
    case Csr(2, _, rs1, _) => {rs1} - {0}
    case Csr(3, _, rs1, _) => {rs1} - {0}
    case _ => {}
  }

  /** The register that an instruction writes from its execution on, or from memory. */
  function Produces(i: Instr): set<Reg> {
    match i
    case Alu(_, rd, _, _) => {rd}
    case AluW(_, rd, _, _) => {rd}
    case AluImm(_, rd, _, _) => {rd}
    case AluImmW(_, rd, _, _) => {rd}
    case Load(_, rd, _, _) => {rd}
    case Lui(rd, _) => {rd}
    case Auipc(rd, _) => {rd}
    case Jal(rd, _) => {rd}
    case Jalr(rd, _, _) => {rd}
    case _ => {}
  }

  function LoadsTo(i: Instr): set<Reg> {
    if i.Load? then {i.rd} else {}
  }

  /** An instruction wants one of some registers. */
  predicate Awaits(i: Instr, results: set<Reg>) {
    Reads(i) * results != {}
  }

  /** The stalls of the last of three instructions in a row: one for a load just before; and a
      branch or JALR, which wants its registers a stage earlier, one more for any result just
      before, and one for a load two before. */
  function Stalls(first: Instr, second: Instr, i: Instr): nat {
    Count(Awaits(i, LoadsTo(second)))
    + if i.Branch? || i.Jalr? then Count(Awaits(i, Produces(second))) + Count(Awaits(i, LoadsTo(first))) else 0
  }

  lemma Meets(s: set<Reg>, r: Reg)
    ensures s * {r} != {} <==> r in s
    ensures s * {} == {}
  {
    if r in s {
      assert r in s * {r};
    }
  }

  lemma UsesIs(cfg: Config, i: Instr, r: Reg)
    requires Legal(cfg, i) && !(i.Csr? && i.funct3 >= 4)
    ensures Uses(r, Rs1Of(i), Rs2Of(i)) <==> r in Reads(i)
  {
  }

  lemma WritesIs(cfg: Config, i: Instr)
    requires Legal(cfg, i)
    ensures WritesReg(i) ==> Produces(i) == {RdOf(i)}
    ensures !WritesReg(i) ==> Produces(i) == {}
    ensures i.Load? ==> LoadsTo(i) == {RdOf(i)}
  {
  }

  /** What i waits for, of an instruction before it. */
  lemma Waits(cfg: Config, before: Instr, i: Instr)
    requires Legal(cfg, before) && Legal(cfg, i) && !(i.Csr? && i.funct3 >= 4)
    ensures Awaits(i, LoadsTo(before)) <==> before.Load? && Uses(RdOf(before), Rs1Of(i), Rs2Of(i))
    ensures Awaits(i, Produces(before)) <==> WritesReg(before) && Uses(RdOf(before), Rs1Of(i), Rs2Of(i))
  {
    hide Legal, Reads, Produces, RdOf, Rs1Of, Rs2Of, WritesReg, Uses;
    WritesIs(cfg, before);
    Meets(Reads(i), RdOf(before));
    UsesIs(cfg, i, RdOf(before));
  }

  lemma NoStalls(first: Instr, second: Instr, i: Instr)
    requires Reads(i) == {} && !i.Branch? && !i.Jalr?
    ensures Stalls(first, second, i) == 0
  {
  }

  lemma WaitsAre(cfg: Config, p: Perf, first: Instr, second: Instr, i: Instr)
    requires p == Perf(RdOf(second), RdOf(first), second.Load?, first.Load?, WritesReg(second))
    requires Legal(cfg, first) && Legal(cfg, second) && Legal(cfg, i) && !(i.Csr? && i.funct3 >= 4)
    ensures LoadUseCycles(p, Rs1Of(i), Rs2Of(i)) == Count(Awaits(i, LoadsTo(second)))
    ensures BranchUseCycles(p, Rs1Of(i), Rs2Of(i))
            == Count(Awaits(i, LoadsTo(second))) + Count(Awaits(i, Produces(second))) + Count(Awaits(i, LoadsTo(first)))
  {
    hide Legal, Reads, Produces, LoadsTo, Awaits, RdOf, Rs1Of, Rs2Of, WritesReg, Uses;
    Waits(cfg, first, i);
    Waits(cfg, second, i);
  }

  /** The instructions that wait for nothing. */
  predicate Patient(i: Instr) {
    i.Lui? || i.Auipc? || i.Jal? || i.Fence? || i.Unknown? || (i.Csr? && i.funct3 >= 4)
  }

  lemma HazardsAre(p: Perf, i: Instr)
    ensures Patient(i) ==> HazardCycles(p, i) == 0 && Reads(i) == {} && !i.Branch? && !i.Jalr?
    ensures !Patient(i) ==> HazardCycles(p, i) == if i.Branch? || i.Jalr? then BranchUseCycles(p, Rs1Of(i), Rs2Of(i))
                                                  else LoadUseCycles(p, Rs1Of(i), Rs2Of(i))
    ensures !Patient(i) ==> !(i.Csr? && i.funct3 >= 4)
  {
    hide BranchUseCycles, LoadUseCycles, Rs1Of, Rs2Of;
  }

  /** The hazards of the pipeline record are those of the two instructions before. */
  lemma StallsAre(cfg: Config, p: Perf, first: Instr, second: Instr, i: Instr)
    requires Legal(cfg, first) && Legal(cfg, second) && Legal(cfg, i)
    ensures HazardCycles(Retire(Retire(p, first), second), i) == Stalls(first, second, i)
  {
    hide Legal, Reads, Produces, LoadsTo, Awaits, RdOf, Rs1Of, Rs2Of, WritesReg, LoadUseCycles, BranchUseCycles,
         HazardCycles, Patient;
    HazardsAre(Retire(Retire(p, first), second), i);
    if Patient(i) {
      NoStalls(first, second, i);
    } else {
      WaitsAre(cfg, Retire(Retire(p, first), second), first, second, i);
    }
  }

  /** A transfer that is made, by a jump or by a branch that is decided. */
  predicate Goes(cfg: Config, i: Instr, s: State) {
    i.Jal? || i.Jalr? || (i.Branch? && Decides(Range(cfg), i.cond, s.regs[i.rs1], s.regs[i.rs2]))
  }

  /** An access of more bytes than its address is a multiple of, where it reaches memory. */
  predicate Crosses(cfg: Config, i: Instr, s: State) {
    (i.Load? || i.Store?)
    && var a, n := (s.regs[i.rs1] + i.imm) % Range(cfg), Width(i.mem);
       n > 0 && a % n != 0 && if i.Load? then Readable(a, n) else 0x2000_0000 <= a && a + n <= 0x2001_0000
  }

  lemma CrossesIs(cfg: Config, i: Instr, s: State)
    ensures DataStall(cfg, i, s) == Crosses(cfg, i, s)
  {
  }

  lemma GoesIs(cfg: Config, i: Instr, s: State)
    requires Sound(cfg, s)
    ensures Taken(cfg, i, s) == Goes(cfg, i, s)
  {
    hide CondHolds, Decides;
    if i.Branch? {
      DecidesIs(cfg.Xlen(), i.cond, s.regs[i.rs1], s.regs[i.rs2]);
    }
  }

  lemma FetchCrosses(s: State)
    ensures FetchStall(s) == (s.pc % 4 != 0 && Readable(s.pc, 4))
  {
  }

  /** The cycles of a fetched instruction, its stalls those of the pipeline record. */
  lemma CycleSum(cfg: Config, d: Core, i: Instr, stalls: nat)
    requires Fetches(cfg, d, i) && HazardCycles(d.perf, i) == stalls
    ensures Step(cfg, d).mcycle
            == (d.mcycle + 1 + stalls + Count(d.st.pc % 4 != 0 && Readable(d.st.pc, 4)) + Count(Crosses(cfg, i, d.st))
                + Count(Goes(cfg, i, d.st))) % 0x1_0000_0000_0000_0000
  {
    hide Step, FetchWord, Listed, Legal, Crosses, Goes, DataStall, Taken, HazardCycles, Tick, Sound, FetchStall,
         Readable;
    Executed(cfg, d, i);
    StepCounters(cfg, d);
    FetchCrosses(d.st);
    CrossesIs(cfg, i, d.st);
    GoesIs(cfg, i, d.st);
    TickIs(d.mcycle, Cost(cfg, d));
  }

  lemma RecordAfter(cfg: Config, c: Core, i: Instr)
    requires Fetches(cfg, c, i)
    ensures Step(cfg, c).perf == Retire(c.perf, i)
  {
    hide Step, Retire, Fetches;
    Executed(cfg, c, i);
    StepCounters(cfg, c);
  }

  lemma AllLegal(cfg: Config, c: Core, i: Instr)
    requires Fetches(cfg, c, i)
    ensures Legal(cfg, i)
  {
  }

  /** After two instructions, the third step takes one cycle, and one more for each of: its
      stalls, a fetch or an access across its alignment, a transfer. */
  lemma ThirdCost(cfg: Config, c: Core, first: Instr, second: Instr, i: Instr)
    requires Fetches(cfg, c, first) && Fetches(cfg, Step(cfg, c), second)
    requires Fetches(cfg, Step(cfg, Step(cfg, c)), i)
    ensures var d := Step(cfg, Step(cfg, c));
            Step(cfg, d).mcycle
            == (d.mcycle + 1 + Stalls(first, second, i) + Count(d.st.pc % 4 != 0 && Readable(d.st.pc, 4))
                + Count(Crosses(cfg, i, d.st)) + Count(Goes(cfg, i, d.st))) % 0x1_0000_0000_0000_0000
  {
    hide Step, Fetches, Legal, Stalls, Crosses, Goes, HazardCycles, Retire, Readable;
    var c1 := Step(cfg, c);
    var d := Step(cfg, c1);
    RecordAfter(cfg, c, first);
    RecordAfter(cfg, c1, second);
    AllLegal(cfg, c, first);
    AllLegal(cfg, c1, second);
    AllLegal(cfg, d, i);
    StallsAre(cfg, c.perf, first, second, i);
    CycleSum(cfg, d, i, Stalls(first, second, i));
  }
}

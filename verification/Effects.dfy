/** What one step does, from the word that is fetched: the register it writes, the bytes it
    loads or stores, the address it goes to, all in numbers. */
module Effects {
  import opened Words
  import opened Arch
  import opened Isa
  import opened Semantics
  import opened Memory
  import opened Runs
  import opened Listing
  import opened Results

  /** The word of an instruction is fetched. */
  predicate Fetches(cfg: Config, c: Core, i: Instr) {
    Sound(cfg, c.st) && Legal(cfg, i) && FetchWord(c.st) == Listed(cfg, i)
  }

  /** The cycle count that a CSR instruction sees. */
  function Seen(c: Core, i: Instr): nat {
    Tick(Fetched(c).mcycle, HazardCycles(c.perf, i))
  }

  lemma ZeroIsNothing(cfg: Config)
    ensures Decode(cfg, 0) == Unknown
  {
    hide ImmI, ImmS, ImmB, ImmU, ImmJ, PlainOp, MulDivOp, ImmOp, WordOp, LoadOp, StoreOp, CondOf, ImmOperand;
    assert Split(0).op == 0;
  }

  lemma Executed(cfg: Config, c: Core, i: Instr)
    requires Fetches(cfg, c, i)
    ensures Current(cfg, c) == i && FetchWord(c.st) != 0
    ensures Step(cfg, c).st == Exec(cfg, i, c.st, Seen(c, i), c.minstret)
  {
    hide Legal, Listed, Decode, Exec, FetchWord, Tick, HazardCycles, Sound;
    ListedWords(cfg, i);
    ZeroIsNothing(cfg);
    LegalKnown(cfg, i);
  }

  function Range(cfg: Config): nat {
    Size(cfg.Xlen())
  }

  /** On to the next word, with rd written. */
  function Onward(cfg: Config, s: State, rd: Reg, v: nat): State {
    State(if rd == 0 then s.regs else s.regs[rd := v], (s.pc + 4) % Range(cfg), s.ram, s.rom, s.console)
  }

  // ------------------------------------------------------------------ arithmetic

  lemma RegisterEffect(cfg: Config, c: Core, i: Instr)
    requires Fetches(cfg, c, i) && i.Alu?
    ensures var t := Step(cfg, c).st;
            && t == Onward(cfg, c.st, i.rd, t.regs[i.rd])
            && (i.rd != 0 ==> Computes(cfg.Xlen(), i.op, c.st.regs[i.rs1], c.st.regs[i.rs2], t.regs[i.rd]))
  {
    hide FetchWord, Listed, Computes, AluAt, Step, Tick;
    Executed(cfg, c, i);
    OperationComputes(cfg.Xlen(), i.op, c.st.regs[i.rs1], c.st.regs[i.rs2]);
  }

  lemma ImmediateEffect(cfg: Config, c: Core, i: Instr)
    requires Fetches(cfg, c, i) && i.AluImm?
    ensures var t := Step(cfg, c).st;
            && t == Onward(cfg, c.st, i.rd, t.regs[i.rd])
            && (i.rd != 0 ==> Computes(cfg.Xlen(), i.op, c.st.regs[i.rs1], i.imm % Range(cfg), t.regs[i.rd]))
  {
    hide FetchWord, Listed, Computes, AluAt, Step, Tick;
    Executed(cfg, c, i);
    OperationComputes(cfg.Xlen(), i.op, c.st.regs[i.rs1], i.imm % Range(cfg));
  }

  /** A 32-bit result of 32-bit operands, its upper half copies of its sign. */
  ghost predicate ComputesWord(op: AluOp, a: nat, b: nat, r: nat) {
    var w := r % 0x1_0000_0000;
    && Computes(32, op, a % 0x1_0000_0000, b % 0x1_0000_0000, w)
    && r == if w < 0x8000_0000 then w else w + 0xFFFF_FFFF_0000_0000
  }

  lemma SignCopies(w: nat)
    requires w < TWO32
    ensures var r := Wrap(TWO64, Signed(TWO32, w));
            r % TWO32 == w && r == if w < 0x8000_0000 then w else w + 0xFFFF_FFFF_0000_0000
  {
  }

  lemma ResultBound(xlen: nat, op: AluOp, a: nat, b: nat, r: nat)
    requires (xlen == 32 || xlen == 64) && Computes(xlen, op, a, b, r)
    ensures r < Size(xlen)
  {
  }

  lemma WordComputes(op: AluOp, a: nat, b: nat)
    requires !op.NOALU?
    ensures ComputesWord(op, a, b, AluWAt(op, a, b))
  {
    hide Computes, AluAt, Signed, Wrap;
    OperationComputes(32, op, a % TWO32, b % TWO32);
    ResultBound(32, op, a % TWO32, b % TWO32, AluAt(TWO32, 32, op, a % TWO32, b % TWO32));
    SignCopies(AluAt(TWO32, 32, op, a % TWO32, b % TWO32));
  }

  lemma WordEffect(cfg: Config, c: Core, i: Instr)
    requires Fetches(cfg, c, i) && (i.AluW? || i.AluImmW?)
    ensures var t, b := Step(cfg, c).st, if i.AluW? then c.st.regs[i.rs2] else i.imm % Range(cfg);
            && t == Onward(cfg, c.st, i.rd, t.regs[i.rd])
            && (i.rd != 0 ==> ComputesWord(i.op, c.st.regs[i.rs1], b, t.regs[i.rd]))
  {
    hide FetchWord, Listed, ComputesWord, AluWAt, Step, Tick;
    Executed(cfg, c, i);
    WordComputes(i.op, c.st.regs[i.rs1], if i.AluW? then c.st.regs[i.rs2] else i.imm % Range(cfg));
  }

  // ---------------------------------------------------------------------- memory

  /** n bytes that lie in ROM or in RAM. */
  predicate Readable(a: nat, n: nat) {
    a + n <= 0x8_0000 || (0x2000_0000 <= a && a + n <= 0x2001_0000)
  }

  function ByteAt(s: State, a: nat): Byte
    requires Readable(a, 1)
  {
    if a < 0x8_0000 then s.rom[a] else s.ram[a - 0x2000_0000]
  }

  /** The number of n bytes, the first one worth least. */
  function NumberAt(s: State, a: nat, n: nat): nat
    requires n > 0 ==> Readable(a, n)
    decreases n
  {
    if n == 0 then 0 else ByteAt(s, a) + 0x100 * NumberAt(s, a + 1, n - 1)
  }

  function Width(mem: MemOp): nat {
    match mem
    case B => 1 case BU => 1 case H => 2 case HU => 2 case W => 4 case WU => 4 case D => 8 case NOMEM => 0
  }

  /** v is what a load makes of the number u: LB, LH and LW read it as signed, LBU, LHU and
      LWU do not, and LD fills the register. */
  predicate Loads(xlen: nat, mem: MemOp, u: nat, v: nat) {
    v < Size(xlen) &&
    match mem
    case B => Int(Size(xlen), v) == if u < 0x80 then u else u - 0x100
    case H => Int(Size(xlen), v) == if u < 0x8000 then u else u - 0x1_0000
    case W => Int(Size(xlen), v) == if u < 0x8000_0000 then u else u - 0x1_0000_0000
    case D => v == u
    case BU => v == u
    case HU => v == u
    case WU => v == u
    case NOMEM => true
  }

  lemma {:induction false} NumberIsRead(s: State, a: nat, n: nat)
    requires n > 0 ==> Readable(a, n)
    ensures n > 0 && a + n <= ROM_SIZE ==> NumberAt(s, a, n) == ReadLE(s.rom, a, n)
    ensures n > 0 && RAM_START <= a ==> NumberAt(s, a, n) == ReadLE(s.ram, a - RAM_START, n)
    decreases n
  {
    if n <= 1 {
    } else {
      NumberIsRead(s, a + 1, n - 1);
    }
  }

  lemma SignExtends(cfg: Config, p: nat, u: nat)
    requires (p == 0x100 || p == 0x1_0000 || p == TWO32 || p == TWO64) && p <= Range(cfg) && u < p
    ensures var v := Wrap(cfg.Modulus(), Signed(p, u));
            Int(Range(cfg), v) == (if u < p / 2 then u else u - p) && (p == Range(cfg) ==> v == u)
  {
    var x, m := Signed(p, u), cfg.Modulus();
    if x >= 0 {
      DivModUnique(x, m, 0, x);
    } else {
      DivModUnique(x, m, -1, x + m);
    }
  }

  lemma ExtendLoads(cfg: Config, mem: MemOp, u: nat)
    requires mem in {D, WU} ==> cfg.rv64
    requires u < match Width(mem) case 1 => 0x100 case 2 => 0x1_0000 case 4 => TWO32 case _ => TWO64
    ensures mem != NOMEM ==> Loads(cfg.Xlen(), mem, u, Extend(cfg.Modulus(), mem, u))
  {
    hide Wrap, Signed, Int;
    match mem
    case B => SignExtends(cfg, 0x100, u);
    case H => SignExtends(cfg, 0x1_0000, u);
    case W => SignExtends(cfg, TWO32, u);
    case D => SignExtends(cfg, TWO64, u);
    case _ =>
  }

  lemma NumberBound(s: State, a: nat, n: nat)
    requires Readable(a, n) && (n == 1 || n == 2 || n == 4 || n == 8)
    ensures NumberAt(s, a, n) < match n case 1 => 0x100 case 2 => 0x1_0000 case 4 => TWO32 case _ => TWO64
    ensures Mapped(a, n) && NumberAt(s, a, n) == Peek(s, a, n)
  {
    hide ReadLE, NumberAt, Pow2;
    NumberIsRead(s, a, n);
    Pow2Values();
    if a + n <= ROM_SIZE {
      ReadBound(s.rom, a, n);
    } else {
      ReadBound(s.ram, a - RAM_START, n);
    }
  }

  lemma ReadsBytes(cfg: Config, s: State, pc: nat, mem: MemOp, rd: Reg, a: nat)
    requires mem != NOMEM && (mem in {D, WU} ==> cfg.rv64)
    ensures var n, t := Width(mem), ExecLoad(cfg, s.(pc := pc), mem, rd, a);
            && t == (if rd == 0 || !Readable(a, n) then s else s.(regs := t.regs)).(pc := pc)
            && t.regs == s.regs[rd := t.regs[rd]]
            && (rd != 0 && Readable(a, n) ==> Loads(cfg.Xlen(), mem, NumberAt(s, a, n), t.regs[rd]))
  {
    hide Loads, Extend, NumberAt, ReadLE, Peek;
    var n := Width(mem);
    if Readable(a, n) {
      NumberBound(s, a, n);
      PeekSame(s.(pc := pc), s, a, n);
      ExtendLoads(cfg, mem, NumberAt(s, a, n));
    }
  }

  /** A load reads its bytes wherever they lie, and leaves rd where they do not. */
  lemma LoadEffect(cfg: Config, c: Core, i: Instr)
    requires Fetches(cfg, c, i) && i.Load?
    ensures var t, a, n := Step(cfg, c).st, (c.st.regs[i.rs1] + i.imm) % Range(cfg), Width(i.mem);
            if !Readable(a, n) then t == Onward(cfg, c.st, 0, 0)
            else t == Onward(cfg, c.st, i.rd, t.regs[i.rd])
                 && (i.rd != 0 ==> Loads(cfg.Xlen(), i.mem, NumberAt(c.st, a, n), t.regs[i.rd]))
  {
    hide FetchWord, Listed, Loads, Step, Tick, NumberAt, ExecLoad, Sound, Readable;
    Executed(cfg, c, i);
    ReadsBytes(cfg, c.st, (c.st.pc + 4) % Range(cfg), i.mem, i.rd, (c.st.regs[i.rs1] + i.imm) % Range(cfg));
  }

  /** A store changes its bytes, if they all lie in RAM, and nothing else. */
  lemma StoreEffect(cfg: Config, c: Core, i: Instr, j: nat)
    requires Fetches(cfg, c, i) && i.Store? && j < 0x1_0000
    ensures var t, a, n := Step(cfg, c).st, (c.st.regs[i.rs1] + i.imm) % Range(cfg), Width(i.mem);
            && t == Onward(cfg, c.st.(ram := t.ram), 0, 0)
            && t.ram[j] == if 0x2000_0000 <= a && a + n <= 0x2001_0000 && a <= 0x2000_0000 + j < a + n
                           then Shr(c.st.regs[i.rs2], 8 * (0x2000_0000 + j - a)) % 0x100 else c.st.ram[j]
  {
    hide FetchWord, Listed, Step, Tick, WriteLE, Shr;
    Executed(cfg, c, i);
    var a, n := (c.st.regs[i.rs1] + i.imm) % Range(cfg), Width(i.mem);
    if InRam(a, n) {
      WriteByteMap(c.st.ram, a - RAM_START, c.st.regs[i.rs2], n, j);
    }
  }

  // ------------------------------------------------------------------- transfers

  /** The six comparisons, of integers and of naturals. */
  predicate Decides(m: nat, cond: Cond, a: nat, b: nat) {
    match cond
    case EQ => a == b
    case NE => a != b
    case LT => Int(m, a) < Int(m, b)
    case GE => Int(m, b) <= Int(m, a)
    case LTU => a < b
    case GEU => b <= a
    case NEVER => false
  }

  lemma DecidesIs(xlen: nat, cond: Cond, a: nat, b: nat)
    requires (xlen == 32 || xlen == 64) && a < Size(xlen) && b < Size(xlen)
    ensures CondHolds(Size(xlen), cond, a, b) == Decides(Size(xlen), cond, a, b)
  {
    hide Int, Signed, Size;
    IntIs(xlen, a);
    IntIs(xlen, b);
  }

  lemma BranchEffect(cfg: Config, c: Core, i: Instr)
    requires Fetches(cfg, c, i) && i.Branch?
    ensures var taken := Decides(Range(cfg), i.cond, c.st.regs[i.rs1], c.st.regs[i.rs2]);
            Step(cfg, c).st == c.st.(pc := (c.st.pc + if taken then i.imm else 4) % Range(cfg))
  {
    hide FetchWord, Listed, Step, Tick, CondHolds, Decides;
    Executed(cfg, c, i);
    DecidesIs(cfg.Xlen(), i.cond, c.st.regs[i.rs1], c.st.regs[i.rs2]);
  }

  /** BEQ and BNE, BLT and BGE, BLTU and BGEU: of each two, one goes where the other does not. */
  lemma Complements(m: nat, a: nat, b: nat)
    ensures Decides(m, EQ, a, b) <==> !Decides(m, NE, a, b)
    ensures Decides(m, LT, a, b) <==> !Decides(m, GE, a, b)
    ensures Decides(m, LTU, a, b) <==> !Decides(m, GEU, a, b)
  {
  }

  lemma EvenPart(x: int, k: int, u: nat, h: nat)
    requires 0 < h && x == k * (2 * h) + u && u < 2 * h
    ensures u - u % 2 == (x - x % 2) % (2 * h)
  {
    assert k * (2 * h) == 2 * (k * h);
    DivModUnique(x, 2, k * h + u / 2, u % 2);
    DivModUnique(x - x % 2, 2 * h, k, u - u % 2);
  }

  lemma EvenRest(cfg: Config, x: int)
    ensures var u := Wrap(cfg.Modulus(), x); u - u % 2 == (x - x % 2) % Range(cfg)
  {
    var k, u := x / cfg.Modulus(), Wrap(cfg.Modulus(), x);
    if cfg.rv64 {
      EvenPart(x, k, u, 0x8000_0000_0000_0000);
    } else {
      EvenPart(x, k, u, 0x8000_0000);
    }
  }

  /** JAL goes from its own address and leaves the address of the next word in rd. */
  lemma JalEffect(cfg: Config, c: Core, i: Instr)
    requires Fetches(cfg, c, i) && i.Jal?
    ensures Step(cfg, c).st
            == Onward(cfg, c.st, i.rd, (c.st.pc + 4) % Range(cfg)).(pc := (c.st.pc + i.imm) % Range(cfg))
  {
    hide FetchWord, Listed, Step, Tick;
    Executed(cfg, c, i);
  }

  /** JALR goes from a register, as it was before the link, to an even address. */
  lemma JalrEffect(cfg: Config, c: Core, i: Instr)
    requires Fetches(cfg, c, i) && i.Jalr?
    ensures var x := c.st.regs[i.rs1] + i.imm;
            Step(cfg, c).st
            == Onward(cfg, c.st, i.rd, (c.st.pc + 4) % Range(cfg)).(pc := (x - x % 2) % Range(cfg))
  {
    hide FetchWord, Listed, Step, Tick;
    Executed(cfg, c, i);
    EvenRest(cfg, c.st.regs[i.rs1] + i.imm);
  }

  lemma UpperEffect(cfg: Config, c: Core, i: Instr)
    requires Fetches(cfg, c, i) && (i.Lui? || i.Auipc?)
    ensures Step(cfg, c).st == Onward(cfg, c.st, i.rd, (if i.Lui? then i.imm else c.st.pc + i.imm) % Range(cfg))
  {
    hide FetchWord, Listed, Step, Tick;
    Executed(cfg, c, i);
  }

  // ---------------------------------------------------------------------- system

  /** cycle and mcycle, instret and minstret, their high halves on RV32; others read zero. */
  function CounterAt(cfg: Config, csr: nat, cycles: nat, instructions: nat): nat {
    if csr == 0xC00 || csr == 0xB00 then cycles % Range(cfg)
    else if csr == 0xC02 || csr == 0xB02 then instructions % Range(cfg)
    else if (csr == 0xC80 || csr == 0xB80) && !cfg.rv64 then cycles / 0x1_0000_0000 % 0x1_0000_0000
    else if (csr == 0xC82 || csr == 0xB82) && !cfg.rv64 then instructions / 0x1_0000_0000 % 0x1_0000_0000
    else 0
  }

  lemma TickIs(n: nat, k: nat)
    ensures Tick(n, k) == (n + k) % 0x1_0000_0000_0000_0000
  {
  }

  lemma CounterIs(cfg: Config, csr: nat, cycles: nat, instructions: nat)
    ensures ReadCsr(cfg, csr, cycles, instructions) == CounterAt(cfg, csr, cycles, instructions)
  {
  }

  /** A CSR instruction reads a counter: the cycles as they are once its stalls are over and
      its own cycle is to come, the instructions without itself. */
  lemma CsrEffect(cfg: Config, c: Core, i: Instr) returns (stalls: nat)
    requires Fetches(cfg, c, i) && i.Csr?
    ensures stalls <= 2 && Step(cfg, c).mcycle == (c.mcycle + stalls + 1) % 0x1_0000_0000_0000_0000
    ensures var cycles := (c.mcycle + stalls) % 0x1_0000_0000_0000_0000;
            Step(cfg, c).st == Onward(cfg, c.st, i.rd, CounterAt(cfg, i.csr, cycles, c.minstret))
  {
    hide FetchWord, Listed, Step, Tick, ReadCsr, CounterAt, FetchStall;
    Executed(cfg, c, i);
    StepCounters(cfg, c);
    stalls := Count(FetchStall(c.st)) + HazardCycles(c.perf, i);
    TickTick(c.mcycle, Count(FetchStall(c.st)), HazardCycles(c.perf, i));
    TickIs(c.mcycle, stalls);
    TickIs(c.mcycle, stalls + 1);
    CounterIs(cfg, i.csr, Seen(c, i), c.minstret);
  }

  lemma EcallWord(cfg: Config, i: Instr)
    requires Legal(cfg, i) && (i.Env? || i.Fence?)
    ensures Listed(cfg, i) == 0x0000_0073 <==> i.Env? && i.code != 1
  {
  }

  /** FENCE does nothing; ECALL with 11 in a0 prints the low byte of a1, and other calls and
      EBREAK change nothing but pc. */
  lemma EnvEffect(cfg: Config, c: Core, i: Instr)
    requires Fetches(cfg, c, i) && (i.Env? || i.Fence?)
    ensures var prints := FetchWord(c.st) == 0x0000_0073 && c.st.regs[10] == 11;
            Step(cfg, c).st
            == Onward(cfg, c.st, 0, 0).(console := c.st.console + if prints then [c.st.regs[11] % 0x100] else [])
  {
    hide FetchWord, Step, Tick, Listed;
    Executed(cfg, c, i);
    EcallWord(cfg, i);
    assert c.st.console + [] == c.st.console;
  }
}

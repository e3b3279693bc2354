/** What each instruction does: to the architectural state, as the Unprivileged ISA
    describes it, and to the two cycle counters and the pipeline record. Where the ISA would
    raise an exception the emulator has none, and neither has this: a transfer to a misaligned
    address goes there (Alignment.dfy), a word that encodes nothing and an access to unmapped
    memory do nothing, and ECALL and EBREAK are calls of the emulator's environment. */
module Semantics {
  import opened Words
  import opened Arch
  import opened MulDiv
  import opened Isa

  type Regs = r: seq<nat> | |r| == 32 witness seq(32, _ => 0)
  type Rom = r: seq<Byte> | |r| == ROM_SIZE witness seq(ROM_SIZE, _ => 0)
  type Ram = r: seq<Byte> | |r| == RAM_SIZE witness seq(RAM_SIZE, _ => 0)

  /** The architectural state; console is what ECALL has printed. */
  datatype State = State(regs: Regs, pc: nat, ram: Ram, rom: Rom, console: seq<Byte>)

  // ------------------------------------------------------------------- memory

  /** The n bytes at a, least significant first, as a number. */
  function ReadLE(mem: seq<Byte>, a: nat, n: nat): nat
    requires a + n <= |mem|
    decreases n
  {
    if n == 0 then 0 else mem[a] + 256 * ReadLE(mem, a + 1, n - 1)
  }

  function BytesOf(v: nat, n: nat): (b: seq<Byte>)
    ensures |b| == n
  {
    if n == 0 then [] else [v % 256] + BytesOf(v / 256, n - 1)
  }

  function WriteLE(mem: seq<Byte>, a: nat, v: nat, n: nat): (mem': seq<Byte>)
    requires a + n <= |mem|
    ensures |mem'| == |mem|
  {
    mem[..a] + BytesOf(v, n) + mem[a + n..]
  }

  function Bytes(mem: MemOp): nat {
    match mem
    case B => 1 case BU => 1 case H => 2 case HU => 2 case W => 4 case WU => 4 case D => 8 case NOMEM => 0
  }

  predicate InRam(addr: nat, n: nat) { RAM_START <= addr && addr + n <= RAM_START + RAM_SIZE }

  predicate InRom(addr: nat, n: nat) { addr + n <= ROM_SIZE }

  predicate Mapped(addr: nat, n: nat) { InRam(addr, n) || InRom(addr, n) }

  /** The raw n-byte value at a mapped address. */
  function Peek(s: State, addr: nat, n: nat): nat
    requires Mapped(addr, n)
  {
    if InRam(addr, n) then ReadLE(s.ram, addr - RAM_START, n) else ReadLE(s.rom, addr, n)
  }

  /** A loaded value extended to a register: signed, except for the U forms. */
  function Extend(m: int, mem: MemOp, v: nat): nat
    requires 0 < m
  {
    match mem
    case B => Wrap(m, Signed(0x100, v))
    case H => Wrap(m, Signed(0x1_0000, v))
    case W => Wrap(m, Signed(TWO32, v))
    case D => Wrap(m, Signed(TWO64, v))
    case _ => v
  }

  // --------------------------------------------------------------- arithmetic

  /** Shifts use the low bits of the operand. */
  function Amount(b: nat, xlen: nat): (n: nat)
    requires 0 < xlen
    ensures n < xlen
  {
    b % xlen
  }

  /** The result of an integer operation on registers of modulus m == 2^xlen. */
  function AluAt(m: int, xlen: nat, op: AluOp, a: nat, b: nat): nat
    requires 0 < m && 0 < xlen
  {
    match op
    case ADD => Wrap(m, a + b)
    case SUB => Wrap(m, a - b)
    case SLL => Wrap(m, a * Pow2(Amount(b, xlen)))
    case SRL => Wrap(m, a / Pow2(Amount(b, xlen)))
    case SRA => Wrap(m, Signed(m, a) / Pow2(Amount(b, xlen)))
    case SLT => if Signed(m, a) < Signed(m, b) then 1 else 0
    case SLTU => if a < b then 1 else 0
    case XOR => Xor(a, b)
    case OR => Or(a, b)
    case AND => And(a, b)
    case MUL => Wrap(m, a * b)
    case MULH => Wrap(m, Signed(m, a) * Signed(m, b) / m)
    case MULHSU => Wrap(m, Signed(m, a) * b / m)
    case MULHU => Wrap(m, a * b / m)
    case DIV => Wrap(m, Quotient(Signed(m, a), Signed(m, b)))
    case DIVU => Wrap(m, Quotient(a, b))
    case REM => Wrap(m, Remainder(Signed(m, a), Signed(m, b)))
    case REMU => Wrap(m, Remainder(a, b))
    case NOALU => 0
  }

  /** A 32-bit operation of RV64: on the low words, sign-extending the result. */
  function AluWAt(op: AluOp, a: nat, b: nat): (r: nat)
    ensures r < TWO64
  {
    Wrap(TWO64, Signed(TWO32, AluAt(TWO32, 32, op, a % TWO32, b % TWO32)))
  }

  predicate CondHolds(m: int, c: Cond, a: nat, b: nat) {
    match c
    case EQ => a == b
    case NE => a != b
    case LT => Signed(m, a) < Signed(m, b)
    case GE => Signed(m, a) >= Signed(m, b)
    case LTU => a < b
    case GEU => a >= b
    case NEVER => false
  }

  // ------------------------------------------------------------------ execution

  function SetReg(s: State, rd: Reg, v: nat): State {
    if rd == 0 then s else s.(regs := s.regs[rd := v])
  }

  /** Counter CSRs by number; every other CSR reads as zero. */
  function ReadCsr(cfg: Config, csr: nat, mcycle: nat, minstret: nat): nat {
    if csr == 0xB00 || csr == 0xC00 then mcycle % cfg.Modulus()
    else if csr == 0xB02 || csr == 0xC02 then minstret % cfg.Modulus()
    else if !cfg.rv64 && (csr == 0xB80 || csr == 0xC80) then mcycle / TWO32 % TWO32
    else if !cfg.rv64 && (csr == 0xB82 || csr == 0xC82) then minstret / TWO32 % TWO32
    else 0
  }

  function Address(cfg: Config, s: State, rs1: Reg, imm: int): nat {
    Wrap(cfg.Modulus(), s.regs[rs1] + imm)
  }

  function ExecLoad(cfg: Config, s: State, mem: MemOp, rd: Reg, addr: nat): State {
    if mem == NOMEM || !Mapped(addr, Bytes(mem)) then s
    else SetReg(s, rd, Extend(cfg.Modulus(), mem, Peek(s, addr, Bytes(mem))))
  }

  function ExecStore(s: State, mem: MemOp, addr: nat, v: nat): State {
    if mem == NOMEM || !InRam(addr, Bytes(mem)) then s
    else s.(ram := WriteLE(s.ram, addr - RAM_START, v, Bytes(mem)))
  }

  /** Whether control leaves the straight line. */
  predicate Taken(cfg: Config, i: Instr, s: State) {
    match i
    case Branch(cond, rs1, rs2, _) => CondHolds(cfg.Modulus(), cond, s.regs[rs1], s.regs[rs2])
    case Jal(_, _) => true
    case Jalr(_, _, _) => true
    case _ => false
  }

  /** The value an integer instruction computes. */
  function AluOf(cfg: Config, i: Instr, s: State): nat
    requires i.Alu? || i.AluImm? || i.AluW? || i.AluImmW?
  {
    var m := cfg.Modulus();
    var a := s.regs[i.rs1];
    match i
    case Alu(op, _, _, rs2) => AluAt(m, cfg.Xlen(), op, a, s.regs[rs2])
    case AluImm(op, _, _, imm) => AluAt(m, cfg.Xlen(), op, a, Wrap(m, imm))
    case AluW(op, _, _, rs2) => AluWAt(op, a, s.regs[rs2])
    case AluImmW(op, _, _, imm) => AluWAt(op, a, Wrap(m, imm))
  }

  /** One instruction; a CSR instruction sees the two counter values given. */
  function Exec(cfg: Config, i: Instr, s: State, mcycle: nat, minstret: nat): State
  {
    var m := cfg.Modulus();
    var next := s.(pc := Wrap(m, s.pc + 4));
    match i
    case Alu(op, rd, _, _) => if op == NOALU then next else SetReg(next, rd, AluOf(cfg, i, s))
    case AluImm(op, rd, _, _) => if op == NOALU then next else SetReg(next, rd, AluOf(cfg, i, s))
    case AluW(op, rd, _, _) => if op == NOALU then next else SetReg(next, rd, AluOf(cfg, i, s))
    case AluImmW(op, rd, _, _) => if op == NOALU then next else SetReg(next, rd, AluOf(cfg, i, s))
    case Load(mem, rd, rs1, imm) => ExecLoad(cfg, next, mem, rd, Address(cfg, s, rs1, imm))
    case Store(mem, rs1, rs2, imm) => ExecStore(next, mem, Address(cfg, s, rs1, imm), s.regs[rs2])
    case Branch(_, _, _, imm) => if Taken(cfg, i, s) then s.(pc := Wrap(m, s.pc + imm)) else next
    case Lui(rd, imm) => SetReg(next, rd, Wrap(m, imm))
    case Auipc(rd, imm) => SetReg(next, rd, Wrap(m, s.pc + imm))
    case Jal(rd, imm) => SetReg(s.(pc := Wrap(m, s.pc + imm)), rd, next.pc)
    case Jalr(rd, rs1, imm) =>
      var target := Address(cfg, s, rs1, imm);
      SetReg(s.(pc := target - target % 2), rd, next.pc)
    case Fence => next
    case Env(_, _, code) =>
      if code != 1 && s.regs[10] == 11 then next.(console := s.console + [s.regs[11] % 256]) else next
    case Csr(funct3, rd, _, csr) =>
      if funct3 == 4 then next else SetReg(next, rd, ReadCsr(cfg, csr, mcycle, minstret))
    case Unknown => next
  }

  /** EBREAK, and ECALL with 10 in a0, end the run. */
  predicate Stops(i: Instr, s: State) {
    i.Env? && (i.code == 1 || s.regs[10] == 10)
  }

  // --------------------------------------------------------------------- timing

  /** What the timing model remembers of the last two retired instructions. */
  datatype Perf = Perf(prevRd: Reg, prev2Rd: Reg, prevLoad: bool, prev2Load: bool, prevWrite: bool)

  const FRESH := Perf(0, 0, false, false, false)

  function Rs1Of(i: Instr): Reg {
    match i
    case Lui(_, _) => 0 case Auipc(_, _) => 0 case Jal(_, _) => 0 case Fence => 0 case Unknown => 0
    case _ => i.rs1
  }

  function Rs2Of(i: Instr): Reg {
    match i
    case Alu(_, _, _, rs2) => rs2 case AluW(_, _, _, rs2) => rs2
    case Store(_, _, rs2, _) => rs2 case Branch(_, _, rs2, _) => rs2
    case _ => 0
  }

  function RdOf(i: Instr): Reg {
    match i
    case Store(_, _, _, _) => 0 case Branch(_, _, _, _) => 0 case Fence => 0 case Unknown => 0
    case _ => i.rd
  }

  /** The instructions the model records as register writers: not the CSR ones. */
  predicate WritesReg(i: Instr) {
    i.Alu? || i.AluImm? || i.AluW? || i.AluImmW? || i.Load? || i.Lui? || i.Auipc? || i.Jal? || i.Jalr?
  }

  function Count(b: bool): nat { if b then 1 else 0 }

  predicate Uses(r: Reg, rs1: Reg, rs2: Reg) {
    r != 0 && (rs1 == r || rs2 == r)
  }

  /** A load's result is wanted by the very next instruction. */
  function LoadUseCycles(p: Perf, rs1: Reg, rs2: Reg): nat {
    Count(p.prevLoad && Uses(p.prevRd, rs1, rs2))
  }

  /** A branch wants its operands one stage earlier. */
  function BranchUseCycles(p: Perf, rs1: Reg, rs2: Reg): nat {
    Count(p.prevWrite && Uses(p.prevRd, rs1, rs2)) + Count(p.prev2Load && Uses(p.prev2Rd, rs1, rs2))
    + LoadUseCycles(p, rs1, rs2)
  }

  function HazardCycles(p: Perf, i: Instr): nat {
    if i.Branch? || i.Jalr? then BranchUseCycles(p, Rs1Of(i), Rs2Of(i))
    else if i.Lui? || i.Auipc? || i.Jal? || i.Fence? || i.Unknown? || (i.Csr? && i.funct3 >= 4) then 0
    else LoadUseCycles(p, Rs1Of(i), Rs2Of(i))
  }

  predicate Misaligned(addr: nat, n: nat) { n > 1 && addr % n != 0 }

  /** Whether the data access of the instruction straddles its natural alignment. */
  predicate DataStall(cfg: Config, i: Instr, s: State) {
    match i
    case Load(mem, _, rs1, imm) =>
      var addr := Address(cfg, s, rs1, imm);
      mem != NOMEM && Mapped(addr, Bytes(mem)) && Misaligned(addr, Bytes(mem))
    case Store(mem, rs1, _, imm) =>
      var addr := Address(cfg, s, rs1, imm);
      mem != NOMEM && InRam(addr, Bytes(mem)) && Misaligned(addr, Bytes(mem))
    case _ => false
  }

  function Retire(p: Perf, i: Instr): Perf {
    Perf(RdOf(i), p.prevRd, i.Load?, p.prevLoad, WritesReg(i))
  }

  // -------------------------------------------------------------------- machine

  /** The whole emulator state. */
  datatype Core = Core(st: State, perf: Perf, mcycle: nat, minstret: nat)

  /** A 64-bit counter advanced by n. */
  function Tick(counter: nat, n: nat): (c: nat)
    ensures c < TWO64
  {
    Wrap(TWO64, counter + n)
  }

  lemma TickZero(counter: nat)
    requires counter < TWO64
    ensures Tick(counter, 0) == counter
  {
    WrapSmall(TWO64, counter);
  }

  lemma TickTick(counter: nat, a: nat, b: nat)
    ensures Tick(Tick(counter, a), b) == Tick(counter, a + b)
  {
    WrapPlus(TWO64, counter + a + b, -((counter + a) / TWO64));
  }

  /** One decoded instruction with its cycle accounting. */
  function StepInstr(cfg: Config, c: Core, i: Instr): Core {
    var seen := Tick(c.mcycle, HazardCycles(c.perf, i));
    Core(Exec(cfg, i, c.st, seen, c.minstret),
         Retire(c.perf, i),
         Tick(c.mcycle, HazardCycles(c.perf, i) + Count(DataStall(cfg, i, c.st)) + Count(Taken(cfg, i, c.st)) + 1),
         Tick(c.minstret, 1))
  }

  /** The word at pc, zero where nothing is mapped. */
  function FetchWord(s: State): nat {
    if Mapped(s.pc, 4) then Peek(s, s.pc, 4) else 0
  }

  predicate FetchStall(s: State) {
    Mapped(s.pc, 4) && Misaligned(s.pc, 4)
  }

  function Fetched(c: Core): Core {
    c.(mcycle := Tick(c.mcycle, Count(FetchStall(c.st))))
  }

  /** Fetch, decode and execute one instruction. */
  function Step(cfg: Config, c: Core): Core {
    StepInstr(cfg, Fetched(c), Decode(cfg, FetchWord(c.st)))
  }
}

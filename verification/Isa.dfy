/** The instruction set as the Unprivileged ISA describes it: abstract instructions and their
    32-bit encodings, encoding and decoding, in terms of fields and not of the emulator's
    masks and shifts. */
module Isa {
  import opened Words
  import opened Arch

  type Reg = r: nat | r < 32

  datatype AluOp =
    | ADD | SUB | SLL | SLT | SLTU | XOR | SRL | SRA | OR | AND
    | MUL | MULH | MULHSU | MULHU | DIV | DIVU | REM | REMU
    | NOALU  // a function code without an operation

  datatype Cond = EQ | NE | LT | GE | LTU | GEU | NEVER

  datatype MemOp = B | H | W | D | BU | HU | WU | NOMEM

  /** A decoded instruction. The last alternatives of the three enumerations above, and
      Unknown, stand for encodings that have no meaning on this build: they retire
      without an effect on the architectural state other than pc. */
  datatype Instr =
    | Alu(op: AluOp, rd: Reg, rs1: Reg, rs2: Reg)
    | AluImm(op: AluOp, rd: Reg, rs1: Reg, imm: int)
    | AluW(op: AluOp, rd: Reg, rs1: Reg, rs2: Reg)
    | AluImmW(op: AluOp, rd: Reg, rs1: Reg, imm: int)
    | Load(mem: MemOp, rd: Reg, rs1: Reg, imm: int)
    | Store(mem: MemOp, rs1: Reg, rs2: Reg, imm: int)
    | Branch(cond: Cond, rs1: Reg, rs2: Reg, imm: int)
    | Lui(rd: Reg, imm: int)
    | Auipc(rd: Reg, imm: int)
    | Jal(rd: Reg, imm: int)
    | Jalr(rd: Reg, rs1: Reg, imm: int)
    | Fence
    | Env(rd: Reg, rs1: Reg, code: nat)
    | Csr(funct3: nat, rd: Reg, rs1: Reg, csr: nat)
    | Unknown

  // ---------------------------------------------------------------- encoding

  /** The fields of a 32-bit word, least significant first. */
  datatype Fields = Fields(op: nat, rd: Reg, f3: nat, rs1: Reg, rs2: Reg, f7: nat) {
    predicate InRange() {
      op < 128 && f3 < 8 && f7 < 128
    }
  }

  function Join(f: Fields): nat {
    f.op + 128 * (f.rd + 32 * (f.f3 + 8 * (f.rs1 + 32 * (f.rs2 + 32 * f.f7))))
  }

  function Split(w: nat): Fields {
    var w1 := w / 128;
    var w2 := w1 / 32;
    var w3 := w2 / 8;
    var w4 := w3 / 32;
    Fields(w % 128, w1 % 32, w2 % 8, w3 % 32, w4 % 32, w4 / 32)
  }

  lemma SplitJoin(f: Fields)
    requires f.InRange()
    ensures Split(Join(f)) == f && Join(f) < TWO32
  {
    var w4 := f.rs2 + 32 * f.f7;
    var w3 := f.rs1 + 32 * w4;
    var w2 := f.f3 + 8 * w3;
    var w1 := f.rd + 32 * w2;
    assert Join(f) == f.op + 128 * w1;
    assert Join(f) / 128 == w1 && w1 / 32 == w2 && w2 / 8 == w3 && w3 / 32 == w4 && w4 / 32 == f.f7;
  }

  lemma JoinSplit(w: nat)
    requires w < TWO32
    ensures Join(Split(w)) == w && Split(w).InRange()
  {
    var w1 := w / 128;
    var w2 := w1 / 32;
    var w3 := w2 / 8;
    var w4 := w3 / 32;
    assert w == w % 128 + 128 * w1 && w1 == w1 % 32 + 32 * w2 && w2 == w2 % 8 + 8 * w3;
    assert w3 == w3 % 32 + 32 * w4 && w4 == w4 % 32 + 32 * (w4 / 32);
    assert w1 < 0x200_0000 && w2 < 0x10_0000 && w3 < 0x2_0000 && w4 < 0x1000;
  }

  // The immediates of the formats I, S, B, U and J, in units of one.
  function ImmI(f: Fields): int { Signed(0x1000, f.rs2 + 32 * f.f7) }
  function ImmS(f: Fields): int { Signed(0x1000, f.rd + 32 * f.f7) }
  function ImmB(f: Fields): int {
    Signed(0x2000, f.f7 / 64 * 0x1000 + f.rd % 2 * 0x800 + f.f7 % 64 * 0x20 + f.rd / 2 * 2)
  }
  function ImmU(f: Fields): int {
    Signed(TWO32, (f.f3 + 8 * f.rs1 + 0x100 * f.rs2 + 0x2000 * f.f7) * 0x1000)
  }
  function ImmJ(f: Fields): int {
    Signed(0x20_0000, f.f7 / 64 * 0x10_0000 + (f.f3 + 8 * f.rs1) * 0x1000 + f.rs2 % 2 * 0x800
                      + (f.rs2 / 2 + 16 * (f.f7 % 64)) * 2)
  }

  function AluCode(op: AluOp): (nat, nat)  // funct3, funct7
  {
    match op
    case ADD => (0, 0) case SUB => (0, 32) case SLL => (1, 0) case SLT => (2, 0) case SLTU => (3, 0)
    case XOR => (4, 0) case SRL => (5, 0) case SRA => (5, 32) case OR => (6, 0) case AND => (7, 0)
    case MUL => (0, 1) case MULH => (1, 1) case MULHSU => (2, 1) case MULHU => (3, 1)
    case DIV => (4, 1) case DIVU => (5, 1) case REM => (6, 1) case REMU => (7, 1)
    case NOALU => (0, 0)
  }

  function CondCode(c: Cond): nat {
    match c
    case EQ => 0 case NE => 1 case LT => 4 case GE => 5 case LTU => 6 case GEU => 7 case NEVER => 2
  }

  function MemCode(m: MemOp): nat {
    match m
    case B => 0 case H => 1 case W => 2 case D => 3 case BU => 4 case HU => 5 case WU => 6 case NOMEM => 7
  }

  // The field layouts of section 2.3 (and of chapter 9 for CSR instructions).
  function RType(op: nat, rd: Reg, f3: nat, rs1: Reg, rs2: Reg, f7: nat): Fields {
    Fields(op, rd, f3, rs1, rs2, f7)
  }
  function IType(op: nat, rd: Reg, f3: nat, rs1: Reg, imm: int): Fields {
    var u := Wrap(0x1000, imm);
    Fields(op, rd, f3, rs1, u % 32, u / 32)
  }
  function SType(op: nat, f3: nat, rs1: Reg, rs2: Reg, imm: int): Fields {
    var u := Wrap(0x1000, imm);
    Fields(op, u % 32, f3, rs1, rs2, u / 32)
  }
  function BType(op: nat, f3: nat, rs1: Reg, rs2: Reg, imm: int): Fields {
    var u := Wrap(0x2000, imm);
    Fields(op, u / 2 % 16 * 2 + u / 0x800 % 2, f3, rs1, rs2, u / 0x1000 * 64 + u / 32 % 64)
  }
  function UType(op: nat, rd: Reg, imm: int): Fields {
    var u := Wrap(TWO32, imm);
    Fields(op, rd, u / 0x1000 % 8, u / 0x8000 % 32, u / 0x10_0000 % 32, u / 0x200_0000)
  }
  function JType(op: nat, rd: Reg, imm: int): Fields {
    var u := Wrap(0x20_0000, imm);
    Fields(op, rd, u / 0x1000 % 8, u / 0x8000 % 32,
           u / 0x800 % 2 + u / 2 % 16 * 2, u / 0x10_0000 * 64 + u / 32 % 64)
  }

  function EncodeFields(i: Instr): Fields {
    match i
    case Alu(op, rd, rs1, rs2) => RType(0x33, rd, AluCode(op).0, rs1, rs2, AluCode(op).1)
    case AluW(op, rd, rs1, rs2) => RType(0x3B, rd, AluCode(op).0, rs1, rs2, AluCode(op).1)
    case AluImm(op, rd, rs1, imm) =>
      IType(0x13, rd, AluCode(op).0, rs1, if op == SRA then imm + 0x400 else imm)
    case AluImmW(op, rd, rs1, imm) =>
      IType(0x1B, rd, AluCode(op).0, rs1, if op == SRA then imm + 0x400 else imm)
    case Load(mem, rd, rs1, imm) => IType(0x03, rd, MemCode(mem), rs1, imm)
    case Store(mem, rs1, rs2, imm) => SType(0x23, MemCode(mem), rs1, rs2, imm)
    case Branch(cond, rs1, rs2, imm) => BType(0x63, CondCode(cond), rs1, rs2, imm)
    case Lui(rd, imm) => UType(0x37, rd, imm)
    case Auipc(rd, imm) => UType(0x17, rd, imm)
    case Jal(rd, imm) => JType(0x6F, rd, imm)
    case Jalr(rd, rs1, imm) => IType(0x67, rd, 0, rs1, imm)
    case Fence => IType(0x0F, 0, 0, 0, 0x0FF)
    case Env(rd, rs1, code) => IType(0x73, rd, 0, rs1, code)
    case Csr(funct3, rd, rs1, csr) => IType(0x73, rd, funct3, rs1, csr)
    case Unknown => Fields(0, 0, 0, 0, 0, 0)
  }

  function Encode(i: Instr): nat {
    Join(EncodeFields(i))
  }

  predicate Fits(imm: int, m: int) { -m <= 2 * imm < m }

  predicate IsMulDiv(op: AluOp) { !op.NOALU? && AluCode(op).1 == 1 }

  /** The instructions the manual defines for the build. */
  predicate Legal(cfg: Config, i: Instr)
  {
    match i
    case Alu(op, rd, rs1, rs2) =>
      op != NOALU && (IsMulDiv(op) ==> cfg.mext)
    case AluW(op, rd, rs1, rs2) =>
      && cfg.rv64 && (IsMulDiv(op) ==> cfg.mext)
      && op in {ADD, SUB, SLL, SRL, SRA, MUL, DIV, DIVU, REM, REMU}
    case AluImm(op, rd, rs1, imm) =>
      && op in {ADD, SLT, SLTU, XOR, OR, AND, SLL, SRL, SRA}
      && (if op in {SLL, SRL, SRA} then 0 <= imm < cfg.Xlen() else Fits(imm, 0x1000))
    case AluImmW(op, rd, rs1, imm) =>
      && cfg.rv64 && op in {ADD, SLL, SRL, SRA}
      && (if op == ADD then Fits(imm, 0x1000) else 0 <= imm < 32)
    case Load(mem, rd, rs1, imm) =>
      && Fits(imm, 0x1000) && mem != NOMEM
      && (mem in {D, WU} ==> cfg.rv64)
    case Store(mem, rs1, rs2, imm) =>
      && Fits(imm, 0x1000) && mem in {B, H, W, D}
      && (mem == D ==> cfg.rv64)
    case Branch(cond, rs1, rs2, imm) =>
      Fits(imm, 0x2000) && imm % 2 == 0 && cond != NEVER
    case Lui(rd, imm) => Fits(imm, TWO32) && imm % 0x1000 == 0
    case Auipc(rd, imm) => Fits(imm, TWO32) && imm % 0x1000 == 0
    case Jal(rd, imm) => Fits(imm, 0x20_0000) && imm % 2 == 0
    case Jalr(rd, rs1, imm) => Fits(imm, 0x1000)
    case Fence => true
    case Env(rd, rs1, code) => rd == 0 && rs1 == 0 && code < 2
    case Csr(funct3, rd, rs1, csr) =>
      csr < 0x1000 && funct3 in {1, 2, 3, 5, 6, 7}
    case Unknown => false
  }

  // ---------------------------------------------------------------- decoding

  function PlainOp(f3: nat, bit5: bool): AluOp {
    if f3 == 0 then (if bit5 then SUB else ADD)
    else if f3 == 5 then (if bit5 then SRA else SRL)
    else if bit5 then NOALU
    else if f3 == 1 then SLL else if f3 == 2 then SLT else if f3 == 3 then SLTU
    else if f3 == 4 then XOR else if f3 == 6 then OR else AND
  }

  function MulDivOp(f3: nat): (op: AluOp)
    ensures op != NOALU
  {
    if f3 == 0 then MUL else if f3 == 1 then MULH else if f3 == 2 then MULHSU else if f3 == 3 then MULHU
    else if f3 == 4 then DIV else if f3 == 5 then DIVU else if f3 == 6 then REM else REMU
  }

  function ImmOp(f3: nat, bit5: bool): AluOp {
    if f3 == 0 then ADD else if f3 == 5 then (if bit5 then SRA else SRL)
    else PlainOp(f3, false)
  }

  function WordOp(op: AluOp): AluOp {
    match op
    case SLT => NOALU case SLTU => NOALU case XOR => NOALU case OR => NOALU case AND => NOALU
    case MULH => NOALU case MULHSU => NOALU case MULHU => NOALU
    case _ => op
  }

  function LoadOp(cfg: Config, f3: nat): (mem: MemOp)
    ensures mem == D || mem == WU ==> cfg.rv64
  {
    if f3 == 0 then B else if f3 == 1 then H else if f3 == 2 then W else if f3 == 4 then BU
    else if f3 == 5 then HU else if cfg.rv64 && f3 == 3 then D else if cfg.rv64 && f3 == 6 then WU else NOMEM
  }

  function StoreOp(cfg: Config, f3: nat): MemOp {
    if f3 == 0 then B else if f3 == 1 then H else if f3 == 2 then W
    else if cfg.rv64 && f3 == 3 then D else NOMEM
  }

  function CondOf(f3: nat): Cond {
    if f3 == 0 then EQ else if f3 == 1 then NE else if f3 == 4 then LT else if f3 == 5 then GE
    else if f3 == 6 then LTU else if f3 == 7 then GEU else NEVER
  }

  /** Shift amounts occupy the low 6 bits of the immediate on RV64 and 5 on RV32. */
  function ImmOperand(op: AluOp, f: Fields, xlen: nat): int
    requires xlen == 32 || xlen == 64
  {
    if op.SLL? || op.SRL? || op.SRA? then (if xlen == 64 then f.rs2 + f.f7 % 2 * 32 else f.rs2) else ImmI(f)
  }

  function DecodeFields(cfg: Config, f: Fields): Instr {
    var bit0, bit5 := f.f7 % 2 == 1, f.f7 / 32 % 2 == 1;
    if f.op == 0x33 then
      Alu(if cfg.mext && bit0 then MulDivOp(f.f3) else PlainOp(f.f3, bit5), f.rd, f.rs1, f.rs2)
    else if f.op == 0x13 then
      var op := ImmOp(f.f3, bit5);
      AluImm(op, f.rd, f.rs1, ImmOperand(op, f, cfg.Xlen()))
    else if cfg.rv64 && f.op == 0x3B then
      AluW(WordOp(if cfg.mext && bit0 then MulDivOp(f.f3) else PlainOp(f.f3, bit5)), f.rd, f.rs1, f.rs2)
    else if cfg.rv64 && f.op == 0x1B then
      var op := WordOp(ImmOp(f.f3, bit5));
      AluImmW(op, f.rd, f.rs1, ImmOperand(op, f, 32))
    else if f.op == 0x03 then Load(LoadOp(cfg, f.f3), f.rd, f.rs1, ImmI(f))
    else if f.op == 0x23 then Store(StoreOp(cfg, f.f3), f.rs1, f.rs2, ImmS(f))
    else if f.op == 0x63 then Branch(CondOf(f.f3), f.rs1, f.rs2, ImmB(f))
    else if f.op == 0x0F then Fence
    else if f.op == 0x17 then Auipc(f.rd, ImmU(f))
    else if f.op == 0x37 then Lui(f.rd, ImmU(f))
    else if f.op == 0x6F then Jal(f.rd, ImmJ(f))
    else if f.op == 0x67 then Jalr(f.rd, f.rs1, ImmI(f))
    else if f.op == 0x73 then
      if f.f3 == 0 then Env(f.rd, f.rs1, f.rs2 + 32 * f.f7)
      else Csr(f.f3, f.rd, f.rs1, f.rs2 + 32 * f.f7)
    else Unknown
  }

  function Decode(cfg: Config, w: nat): Instr {
    DecodeFields(cfg, Split(w))
  }

  // ------------------------------------------------------ encode, then decode

  lemma IImmediate(op: nat, rd: Reg, f3: nat, rs1: Reg, imm: int)
    requires Fits(imm, 0x1000)
    ensures ImmI(IType(op, rd, f3, rs1, imm)) == imm
  {
    SignedWrap(0x1000, imm);
  }

  lemma SImmediate(op: nat, f3: nat, rs1: Reg, rs2: Reg, imm: int)
    requires Fits(imm, 0x1000)
    ensures ImmS(SType(op, f3, rs1, rs2, imm)) == imm
  {
    SignedWrap(0x1000, imm);
  }

  lemma LowSlices(l: nat, t: nat)
    requires l < 0x800 && l % 2 == 0
    ensures var u := 0x800 * t + l;
            (u / 2 % 16 + 16 * (u / 32 % 64)) * 2 == l
  {
    var u := 0x800 * t + l;
    assert u / 2 == 0x400 * t + l / 2 && u / 32 == 0x40 * t + l / 32;
    assert u / 2 % 16 == l / 2 % 16 && u / 32 % 64 == l / 32;
  }

  lemma BSlices(u: nat)
    requires u < 0x2000 && u % 2 == 0
    ensures u / 0x1000 * 0x1000 + u / 0x800 % 2 * 0x800 + u / 32 % 64 * 0x20 + u / 2 % 16 * 2 == u
  {
    var l, t := u % 0x800, u / 0x800;
    assert u == 0x800 * t + l && u / 0x1000 == t / 2;
    LowSlices(l, t);
  }

  lemma BScramble(u: nat)
    requires u < 0x2000 && u % 2 == 0
    ensures var rd, f7 := u / 2 % 16 * 2 + u / 0x800 % 2, u / 0x1000 * 64 + u / 32 % 64;
            && rd < 32 && f7 < 128
            && f7 / 64 * 0x1000 + rd % 2 * 0x800 + f7 % 64 * 0x20 + rd / 2 * 2 == u
  {
    var rd, f7 := u / 2 % 16 * 2 + u / 0x800 % 2, u / 0x1000 * 64 + u / 32 % 64;
    assert rd / 2 == u / 2 % 16 && rd % 2 == u / 0x800 % 2;
    assert f7 / 64 == u / 0x1000 && f7 % 64 == u / 32 % 64;
    BSlices(u);
  }

  lemma BImmediate(op: nat, f3: nat, rs1: Reg, rs2: Reg, imm: int)
    requires Fits(imm, 0x2000) && imm % 2 == 0
    ensures var f := BType(op, f3, rs1, rs2, imm);
            ImmB(f) == imm && f.f7 < 128
  {
    SignedWrap(0x2000, imm);
    BScramble(Wrap(0x2000, imm));
  }

  lemma UImmediate(op: nat, rd: Reg, imm: int)
    requires Fits(imm, TWO32) && imm % 0x1000 == 0
    ensures ImmU(UType(op, rd, imm)) == imm && UType(op, rd, imm).f7 < 128
  {
    SignedWrap(TWO32, imm);
    var u := Wrap(TWO32, imm);
    var h := u / 0x1000;
    assert u == h * 0x1000;
    assert u / 0x8000 == h / 8 && u / 0x10_0000 == h / 8 / 32 && u / 0x200_0000 == h / 8 / 32 / 32;
    assert h == h % 8 + 8 * (h / 8 % 32) + 0x100 * (h / 8 / 32 % 32) + 0x2000 * (h / 8 / 32 / 32);
  }

  lemma JSlices(u: nat)
    requires u < 0x20_0000 && u % 2 == 0
    ensures u / 0x10_0000 * 0x10_0000 + (u / 0x1000 % 8 + 8 * (u / 0x8000 % 32)) * 0x1000 + u / 0x800 % 2 * 0x800
            + (u / 2 % 16 + 16 * (u / 32 % 64)) * 2 == u
  {
    var l, t := u % 0x800, u / 0x800;
    var h := t / 2;
    assert t == 2 * h + t % 2 && u == 0x800 * t + l;
    assert u / 0x1000 == h && u / 0x8000 == h / 8 && u / 0x10_0000 == h / 8 / 32;
    assert h == h % 8 + 8 * (h / 8 % 32) + 0x100 * (h / 8 / 32);
    LowSlices(l, t);
  }

  lemma JScramble(u: nat)
    requires u < 0x20_0000 && u % 2 == 0
    ensures var rs2, f7 := u / 0x800 % 2 + u / 2 % 16 * 2, u / 0x10_0000 * 64 + u / 32 % 64;
            && rs2 < 32 && f7 < 128
            && f7 / 64 * 0x10_0000 + (u / 0x1000 % 8 + 8 * (u / 0x8000 % 32)) * 0x1000 + rs2 % 2 * 0x800
               + (rs2 / 2 + 16 * (f7 % 64)) * 2 == u
  {
    var rs2, f7 := u / 0x800 % 2 + u / 2 % 16 * 2, u / 0x10_0000 * 64 + u / 32 % 64;
    assert rs2 / 2 == u / 2 % 16 && rs2 % 2 == u / 0x800 % 2;
    assert f7 / 64 == u / 0x10_0000 && f7 % 64 == u / 32 % 64;
    JSlices(u);
  }

  lemma JImmediate(op: nat, rd: Reg, imm: int)
    requires Fits(imm, 0x20_0000) && imm % 2 == 0
    ensures ImmJ(JType(op, rd, imm)) == imm && JType(op, rd, imm).f7 < 128
  {
    SignedWrap(0x20_0000, imm);
    JScramble(Wrap(0x20_0000, imm));
  }

  lemma ShiftImmediate(op: nat, rd: Reg, f3: nat, rs1: Reg, sh: nat, hi: nat)
    requires sh < 64 && hi < 2
    ensures var f := IType(op, rd, f3, rs1, sh + hi * 0x400);
            && f.f7 < 128 && f.f7 / 32 % 2 == hi && f.f7 % 2 == sh / 32 && f.rs2 + f.f7 % 2 * 32 == sh
  {
    WrapSmall(0x1000, sh + hi * 0x400);
  }

  lemma FieldsInRange(cfg: Config, i: Instr)
    requires Legal(cfg, i)
    ensures EncodeFields(i).InRange()
  {
    hide Signed, Wrap, ImmB, ImmU, ImmJ;
    match i
    case Lui(rd, imm) => UImmediate(0x37, rd, imm);
    case Auipc(rd, imm) => UImmediate(0x17, rd, imm);
    case Jal(rd, imm) => JImmediate(0x6F, rd, imm);
    case Branch(cond, rs1, rs2, imm) => BImmediate(0x63, CondCode(cond), rs1, rs2, imm);
    case _ =>
  }

  // Decoding inverts encoding on the fields, group by group.

  lemma DecodeRegisters(cfg: Config, i: Instr)
    requires Legal(cfg, i) && (i.Alu? || i.AluW?)
    ensures DecodeFields(cfg, EncodeFields(i)) == i
  {
    hide ImmI, ImmS, ImmB, ImmU, ImmJ;
  }

  lemma DecodeShift(cfg: Config, i: Instr)
    requires Legal(cfg, i) && (i.AluImm? || i.AluImmW?) && i.op in {SLL, SRL, SRA}
    ensures DecodeFields(cfg, EncodeFields(i)) == i
  {
    hide Signed, Wrap, ImmI;
    var code := if i.AluImm? then 0x13 else 0x1B;
    ShiftImmediate(code, i.rd, AluCode(i.op).0, i.rs1, i.imm, if i.op == SRA then 1 else 0);
  }

  lemma DecodeSum(cfg: Config, i: Instr)
    requires Legal(cfg, i) && (i.AluImm? || i.AluImmW?) && i.op !in {SLL, SRL, SRA}
    ensures DecodeFields(cfg, EncodeFields(i)) == i
  {
    hide Signed, Wrap, ImmI;
    IImmediate(if i.AluImm? then 0x13 else 0x1B, i.rd, AluCode(i.op).0, i.rs1, i.imm);
  }

  lemma DecodeImmediates(cfg: Config, i: Instr)
    requires Legal(cfg, i) && (i.AluImm? || i.AluImmW?)
    ensures DecodeFields(cfg, EncodeFields(i)) == i
  {
    hide Signed, Wrap, ImmI, DecodeFields, EncodeFields;
    if i.op in {SLL, SRL, SRA} {
      DecodeShift(cfg, i);
    } else {
      DecodeSum(cfg, i);
    }
  }

  lemma DecodeMemory(cfg: Config, i: Instr)
    requires Legal(cfg, i) && (i.Load? || i.Store? || i.Env? || i.Csr? || i.Jalr? || i.Fence?)
    ensures DecodeFields(cfg, EncodeFields(i)) == i
  {
    hide Signed, Wrap, ImmI, ImmS;
    match i
    case Load(mem, rd, rs1, imm) => IImmediate(0x03, rd, MemCode(mem), rs1, imm);
    case Store(mem, rs1, rs2, imm) => SImmediate(0x23, MemCode(mem), rs1, rs2, imm);
    case Env(rd, rs1, code) => WrapSmall(0x1000, code);
    case Csr(funct3, rd, rs1, csr) => WrapSmall(0x1000, csr);
    case Jalr(rd, rs1, imm) => IImmediate(0x67, rd, 0, rs1, imm);
    case Fence =>
  }

  lemma DecodeJumps(cfg: Config, i: Instr)
    requires Legal(cfg, i) && (i.Branch? || i.Lui? || i.Auipc? || i.Jal?)
    ensures DecodeFields(cfg, EncodeFields(i)) == i
  {
    hide Signed, Wrap, ImmB, ImmU, ImmJ;
    match i
    case Branch(cond, rs1, rs2, imm) => BImmediate(0x63, CondCode(cond), rs1, rs2, imm);
    case Lui(rd, imm) => UImmediate(0x37, rd, imm);
    case Auipc(rd, imm) => UImmediate(0x17, rd, imm);
    case Jal(rd, imm) => JImmediate(0x6F, rd, imm);
  }

  /** Every legal instruction survives being encoded and decoded. */
  lemma DecodeEncode(cfg: Config, i: Instr)
    requires Legal(cfg, i)
    ensures Encode(i) < TWO32 && Decode(cfg, Encode(i)) == i
  {
    hide Split, Join, DecodeFields, EncodeFields;
    FieldsInRange(cfg, i);
    SplitJoin(EncodeFields(i));
    if i.Alu? || i.AluW? {
      DecodeRegisters(cfg, i);
    } else if i.AluImm? || i.AluImmW? {
      DecodeImmediates(cfg, i);
    } else if i.Branch? || i.Lui? || i.Auipc? || i.Jal? {
      DecodeJumps(cfg, i);
    } else {
      DecodeMemory(cfg, i);
    }
  }

  // The branch and jump words written out.

  lemma BranchWord(c: Cond, rs1: Reg, rs2: Reg, imm: int, u: nat)
    requires u == Wrap(0x2000, imm)
    ensures Encode(Branch(c, rs1, rs2, imm))
            == 0x63 + 0x80 * (u / 2 % 16 * 2 + u / 0x800 % 2) + 0x1000 * CondCode(c) + 0x8000 * rs1 + 0x10_0000 * rs2
               + 0x200_0000 * (u / 0x1000 * 64 + u / 32 % 64)
  {
    hide Wrap;
  }

  lemma JumpWord(rd: Reg, imm: int, u: nat)
    requires u == Wrap(0x20_0000, imm)
    ensures Encode(Jal(rd, imm))
            == 0x6F + 0x80 * rd + 0x1000 * (u / 0x1000 % 8) + 0x8000 * (u / 0x8000 % 32)
               + 0x10_0000 * (u / 0x800 % 2 + u / 2 % 16 * 2) + 0x200_0000 * (u / 0x10_0000 * 64 + u / 32 % 64)
  {
    hide Wrap;
  }
}

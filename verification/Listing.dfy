/** The instruction words as chapter 24 of the Unprivileged ISA lists them, bit positions and
    codes in numbers, and that they are what the decoder knows. */
module Listing {
  import opened Arch
  import opened Isa

  // The formats: each field at its bit, immediates taken apart as figures 2.3 and 2.4 show.
  function FormatR(f7: nat, rs2: Reg, rs1: Reg, f3: nat, rd: Reg, op: nat): nat {
    f7 * 0x200_0000 + rs2 * 0x10_0000 + rs1 * 0x8000 + f3 * 0x1000 + rd * 0x80 + op
  }

  function FormatI(imm: int, rs1: Reg, f3: nat, rd: Reg, op: nat): nat {
    imm % 0x1000 * 0x10_0000 + rs1 * 0x8000 + f3 * 0x1000 + rd * 0x80 + op
  }

  function FormatS(imm: int, rs2: Reg, rs1: Reg, f3: nat, op: nat): nat {
    var u := imm % 0x1000;
    u / 0x20 * 0x200_0000 + rs2 * 0x10_0000 + rs1 * 0x8000 + f3 * 0x1000 + u % 0x20 * 0x80 + op
  }

  function FormatB(imm: int, rs2: Reg, rs1: Reg, f3: nat, op: nat): nat {
    var u := imm % 0x2000;
    u / 0x1000 * 0x8000_0000 + u / 0x20 % 0x40 * 0x200_0000 + rs2 * 0x10_0000 + rs1 * 0x8000 + f3 * 0x1000
    + u / 2 % 0x10 * 0x100 + u / 0x800 % 2 * 0x80 + op
  }

  function FormatU(imm: int, rd: Reg, op: nat): nat {
    imm % 0x1_0000_0000 / 0x1000 * 0x1000 + rd * 0x80 + op
  }

  function FormatJ(imm: int, rd: Reg, op: nat): nat {
    var u := imm % 0x20_0000;
    u / 0x10_0000 * 0x8000_0000 + u / 2 % 0x400 * 0x20_0000 + u / 0x800 % 2 * 0x10_0000
    + u / 0x1000 % 0x100 * 0x1000 + rd * 0x80 + op
  }

  function Registers(i: Instr): nat
    requires i.Alu? && !i.op.NOALU?
  {
    match i
    case Alu(ADD, rd, rs1, rs2) => FormatR(0x00, rs2, rs1, 0, rd, 0x33)
    case Alu(SUB, rd, rs1, rs2) => FormatR(0x20, rs2, rs1, 0, rd, 0x33)
    case Alu(SLL, rd, rs1, rs2) => FormatR(0x00, rs2, rs1, 1, rd, 0x33)
    case Alu(SLT, rd, rs1, rs2) => FormatR(0x00, rs2, rs1, 2, rd, 0x33)
    case Alu(SLTU, rd, rs1, rs2) => FormatR(0x00, rs2, rs1, 3, rd, 0x33)
    case Alu(XOR, rd, rs1, rs2) => FormatR(0x00, rs2, rs1, 4, rd, 0x33)
    case Alu(SRL, rd, rs1, rs2) => FormatR(0x00, rs2, rs1, 5, rd, 0x33)
    case Alu(SRA, rd, rs1, rs2) => FormatR(0x20, rs2, rs1, 5, rd, 0x33)
    case Alu(OR, rd, rs1, rs2) => FormatR(0x00, rs2, rs1, 6, rd, 0x33)
    case Alu(AND, rd, rs1, rs2) => FormatR(0x00, rs2, rs1, 7, rd, 0x33)
    case Alu(MUL, rd, rs1, rs2) => FormatR(0x01, rs2, rs1, 0, rd, 0x33)
    case Alu(MULH, rd, rs1, rs2) => FormatR(0x01, rs2, rs1, 1, rd, 0x33)
    case Alu(MULHSU, rd, rs1, rs2) => FormatR(0x01, rs2, rs1, 2, rd, 0x33)
    case Alu(MULHU, rd, rs1, rs2) => FormatR(0x01, rs2, rs1, 3, rd, 0x33)
    case Alu(DIV, rd, rs1, rs2) => FormatR(0x01, rs2, rs1, 4, rd, 0x33)
    case Alu(DIVU, rd, rs1, rs2) => FormatR(0x01, rs2, rs1, 5, rd, 0x33)
    case Alu(REM, rd, rs1, rs2) => FormatR(0x01, rs2, rs1, 6, rd, 0x33)
    case Alu(REMU, rd, rs1, rs2) => FormatR(0x01, rs2, rs1, 7, rd, 0x33)
  }

  function Immediates(i: Instr): nat
    requires i.AluImm? && i.op in {ADD, SLT, SLTU, XOR, OR, AND, SLL, SRL, SRA}
  {
    match i
    case AluImm(ADD, rd, rs1, imm) => FormatI(imm, rs1, 0, rd, 0x13)
    case AluImm(SLT, rd, rs1, imm) => FormatI(imm, rs1, 2, rd, 0x13)
    case AluImm(SLTU, rd, rs1, imm) => FormatI(imm, rs1, 3, rd, 0x13)
    case AluImm(XOR, rd, rs1, imm) => FormatI(imm, rs1, 4, rd, 0x13)
    case AluImm(OR, rd, rs1, imm) => FormatI(imm, rs1, 6, rd, 0x13)
    case AluImm(AND, rd, rs1, imm) => FormatI(imm, rs1, 7, rd, 0x13)
    case AluImm(SLL, rd, rs1, shamt) => FormatI(shamt, rs1, 1, rd, 0x13)
    case AluImm(SRL, rd, rs1, shamt) => FormatI(shamt, rs1, 5, rd, 0x13)
    case AluImm(SRA, rd, rs1, shamt) => FormatI(shamt + 0x400, rs1, 5, rd, 0x13)
  }

  /** The forms of RV64 on 32-bit words. */
  function WordForms(i: Instr): nat
    requires i.AluW? || i.AluImmW?
  {
    match i
    case AluW(ADD, rd, rs1, rs2) => FormatR(0x00, rs2, rs1, 0, rd, 0x3B)
    case AluW(SUB, rd, rs1, rs2) => FormatR(0x20, rs2, rs1, 0, rd, 0x3B)
    case AluW(SLL, rd, rs1, rs2) => FormatR(0x00, rs2, rs1, 1, rd, 0x3B)
    case AluW(SRL, rd, rs1, rs2) => FormatR(0x00, rs2, rs1, 5, rd, 0x3B)
    case AluW(SRA, rd, rs1, rs2) => FormatR(0x20, rs2, rs1, 5, rd, 0x3B)
    case AluW(MUL, rd, rs1, rs2) => FormatR(0x01, rs2, rs1, 0, rd, 0x3B)
    case AluW(DIV, rd, rs1, rs2) => FormatR(0x01, rs2, rs1, 4, rd, 0x3B)
    case AluW(DIVU, rd, rs1, rs2) => FormatR(0x01, rs2, rs1, 5, rd, 0x3B)
    case AluW(REM, rd, rs1, rs2) => FormatR(0x01, rs2, rs1, 6, rd, 0x3B)
    case AluW(REMU, rd, rs1, rs2) => FormatR(0x01, rs2, rs1, 7, rd, 0x3B)
    case AluImmW(ADD, rd, rs1, imm) => FormatI(imm, rs1, 0, rd, 0x1B)
    case AluImmW(SLL, rd, rs1, shamt) => FormatI(shamt, rs1, 1, rd, 0x1B)
    case AluImmW(SRL, rd, rs1, shamt) => FormatI(shamt, rs1, 5, rd, 0x1B)
    case AluImmW(SRA, rd, rs1, shamt) => FormatI(shamt + 0x400, rs1, 5, rd, 0x1B)
    case _ => 0
  }

  function Accesses(i: Instr): nat
    requires i.Load? || i.Store?
  {
    match i
    case Load(B, rd, rs1, imm) => FormatI(imm, rs1, 0, rd, 0x03)
    case Load(H, rd, rs1, imm) => FormatI(imm, rs1, 1, rd, 0x03)
    case Load(W, rd, rs1, imm) => FormatI(imm, rs1, 2, rd, 0x03)
    case Load(D, rd, rs1, imm) => FormatI(imm, rs1, 3, rd, 0x03)
    case Load(BU, rd, rs1, imm) => FormatI(imm, rs1, 4, rd, 0x03)
    case Load(HU, rd, rs1, imm) => FormatI(imm, rs1, 5, rd, 0x03)
    case Load(WU, rd, rs1, imm) => FormatI(imm, rs1, 6, rd, 0x03)
    case Store(B, rs1, rs2, imm) => FormatS(imm, rs2, rs1, 0, 0x23)
    case Store(H, rs1, rs2, imm) => FormatS(imm, rs2, rs1, 1, 0x23)
    case Store(W, rs1, rs2, imm) => FormatS(imm, rs2, rs1, 2, 0x23)
    case Store(D, rs1, rs2, imm) => FormatS(imm, rs2, rs1, 3, 0x23)
    case _ => 0
  }

  function Transfers(i: Instr): nat
    requires i.Branch? || i.Jal? || i.Jalr?
  {
    match i
    case Branch(EQ, rs1, rs2, imm) => FormatB(imm, rs2, rs1, 0, 0x63)
    case Branch(NE, rs1, rs2, imm) => FormatB(imm, rs2, rs1, 1, 0x63)
    case Branch(LT, rs1, rs2, imm) => FormatB(imm, rs2, rs1, 4, 0x63)
    case Branch(GE, rs1, rs2, imm) => FormatB(imm, rs2, rs1, 5, 0x63)
    case Branch(LTU, rs1, rs2, imm) => FormatB(imm, rs2, rs1, 6, 0x63)
    case Branch(GEU, rs1, rs2, imm) => FormatB(imm, rs2, rs1, 7, 0x63)
    case Jal(rd, imm) => FormatJ(imm, rd, 0x6F)
    case Jalr(rd, rs1, imm) => FormatI(imm, rs1, 0, rd, 0x67)
    case _ => 0
  }

  function Others(i: Instr): nat {
    match i
    case Lui(rd, imm) => FormatU(imm, rd, 0x37)
    case Auipc(rd, imm) => FormatU(imm, rd, 0x17)
    case Fence => 0x0FF0_000F
    case Env(_, _, 0) => 0x0000_0073
    case Env(_, _, _) => 0x0010_0073
    case Csr(1, rd, rs1, csr) => FormatI(csr, rs1, 1, rd, 0x73)
    case Csr(2, rd, rs1, csr) => FormatI(csr, rs1, 2, rd, 0x73)
    case Csr(3, rd, rs1, csr) => FormatI(csr, rs1, 3, rd, 0x73)
    case Csr(5, rd, uimm, csr) => FormatI(csr, uimm, 5, rd, 0x73)
    case Csr(6, rd, uimm, csr) => FormatI(csr, uimm, 6, rd, 0x73)
    case Csr(7, rd, uimm, csr) => FormatI(csr, uimm, 7, rd, 0x73)
    case _ => 0
  }

  /** The word of an instruction. */
  function Listed(cfg: Config, i: Instr): nat
    requires Legal(cfg, i)
  {
    if i.Alu? then Registers(i)
    else if i.AluImm? then Immediates(i)
    else if i.AluW? || i.AluImmW? then WordForms(i)
    else if i.Load? || i.Store? then Accesses(i)
    else if i.Branch? || i.Jal? || i.Jalr? then Transfers(i)
    else Others(i)
  }

  lemma JoinIs(f: Fields)
    ensures Join(f) == FormatR(f.f7, f.rs2, f.rs1, f.f3, f.rd, f.op)
  {
  }

  lemma IJoin(op: nat, rd: Reg, f3: nat, rs1: Reg, imm: int)
    ensures Join(IType(op, rd, f3, rs1, imm)) == FormatI(imm, rs1, f3, rd, op)
  {
    var u := imm % 0x1000;
    assert u == u % 32 + 32 * (u / 32);
  }

  lemma SJoin(op: nat, f3: nat, rs1: Reg, rs2: Reg, imm: int)
    ensures Join(SType(op, f3, rs1, rs2, imm)) == FormatS(imm, rs2, rs1, f3, op)
  {
  }

  lemma BJoin(op: nat, f3: nat, rs1: Reg, rs2: Reg, imm: int)
    ensures Join(BType(op, f3, rs1, rs2, imm)) == FormatB(imm, rs2, rs1, f3, op)
  {
  }

  lemma UParts(v: nat)
    requires v < 0x10_0000
    ensures v == v % 8 + v / 8 % 32 * 8 + v / 0x100 % 32 * 0x100 + v / 0x2000 * 0x2000
  {
    var a := v / 8;
    var b := a / 32;
    assert v == 8 * a + v % 8 && a == 32 * b + a % 32 && b == 32 * (b / 32) + b % 32;
    assert v / 0x100 == b && v / 0x2000 == b / 32;
  }

  lemma UJoin(op: nat, rd: Reg, imm: int)
    ensures Join(UType(op, rd, imm)) == FormatU(imm, rd, op)
  {
    var u := imm % 0x1_0000_0000;
    UParts(u / 0x1000);
    assert u / 0x8000 == u / 0x1000 / 8 && u / 0x10_0000 == u / 0x1000 / 0x100 && u / 0x200_0000 == u / 0x1000 / 0x2000;
  }

  lemma JHigh(u: nat)
    requires u < 0x20_0000
    ensures u / 0x1000 % 0x100 == u / 0x1000 % 8 + u / 0x8000 % 32 * 8
  {
    var v := u / 0x1000;
    assert v < 0x200 && u / 0x8000 == v / 8;
  }

  lemma JLow(u: nat)
    requires u < 0x20_0000
    ensures u / 2 % 0x400 == u / 2 % 16 + u / 32 % 64 * 16
  {
    var v := u / 2;
    assert v < 0x10_0000 && u / 32 == v / 16;
  }

  /** The fields of a J word, added up slice by slice. */
  lemma JSum(top: nat, f3: nat, rs1: nat, bit11: nat, low: nat, f7: nat, rd: Reg, op: nat)
    requires rs1 < 32 && bit11 < 2 && low < 16 && f3 < 8
    ensures FormatR(top * 64 + f7, bit11 + low * 2, rs1, f3, rd, op)
            == top * 0x8000_0000 + (low + f7 * 16) * 0x20_0000 + bit11 * 0x10_0000 + (f3 + rs1 * 8) * 0x1000 + rd * 0x80
               + op
  {
  }

  lemma JJoin(op: nat, rd: Reg, imm: int)
    ensures Join(JType(op, rd, imm)) == FormatJ(imm, rd, op)
  {
    var u := imm % 0x20_0000;
    JHigh(u);
    JLow(u);
    JoinIs(JType(op, rd, imm));
    JSum(u / 0x10_0000, u / 0x1000 % 8, u / 0x8000 % 32, u / 0x800 % 2, u / 2 % 16, u / 32 % 64, rd, op);
  }

  lemma RegistersListed(cfg: Config, i: Instr)
    requires Legal(cfg, i) && (i.Alu? || i.AluW?)
    ensures Encode(i) == Listed(cfg, i)
  {
    hide Join, FormatR;
    JoinIs(EncodeFields(i));
  }

  lemma ImmediatesListed(cfg: Config, i: Instr)
    requires Legal(cfg, i) && (i.AluImm? || i.AluImmW?)
    ensures Encode(i) == Listed(cfg, i)
  {
    hide Join, FormatI, IType;
    IJoin(if i.AluImm? then 0x13 else 0x1B, i.rd, AluCode(i.op).0, i.rs1, if i.op == SRA then i.imm + 0x400 else i.imm);
  }

  lemma AccessesListed(cfg: Config, i: Instr)
    requires Legal(cfg, i) && (i.Load? || i.Store?)
    ensures Encode(i) == Listed(cfg, i)
  {
    hide Join, FormatI, FormatS, IType, SType;
    match i
    case Load(mem, rd, rs1, imm) => IJoin(0x03, rd, MemCode(mem), rs1, imm);
    case Store(mem, rs1, rs2, imm) => SJoin(0x23, MemCode(mem), rs1, rs2, imm);
  }

  lemma TransfersListed(cfg: Config, i: Instr)
    requires Legal(cfg, i) && (i.Branch? || i.Jal? || i.Jalr?)
    ensures Encode(i) == Listed(cfg, i)
  {
    hide Join, FormatI, FormatB, FormatJ, IType, BType, JType;
    match i
    case Branch(cond, rs1, rs2, imm) => BJoin(0x63, CondCode(cond), rs1, rs2, imm);
    case Jal(rd, imm) => JJoin(0x6F, rd, imm);
    case Jalr(rd, rs1, imm) => IJoin(0x67, rd, 0, rs1, imm);
  }

  lemma EnvWords()
    ensures FormatI(0, 0, 0, 0, 0x73) == 0x0000_0073 && FormatI(1, 0, 0, 0, 0x73) == 0x0010_0073
    ensures FormatI(0x0FF, 0, 0, 0, 0x0F) == 0x0FF0_000F
  {
  }

  lemma OthersListed(cfg: Config, i: Instr)
    requires Legal(cfg, i) && (i.Lui? || i.Auipc? || i.Fence? || i.Env? || i.Csr?)
    ensures Encode(i) == Listed(cfg, i)
  {
    hide Join, FormatI, FormatU, IType, UType;
    EnvWords();
    match i
    case Lui(rd, imm) => UJoin(0x37, rd, imm);
    case Auipc(rd, imm) => UJoin(0x17, rd, imm);
    case Fence => IJoin(0x0F, 0, 0, 0, 0x0FF);
    case Env(rd, rs1, code) => IJoin(0x73, rd, 0, rs1, code);
    case Csr(funct3, rd, rs1, csr) => IJoin(0x73, rd, funct3, rs1, csr);
  }

  lemma LegalKnown(cfg: Config, i: Instr)
    requires Legal(cfg, i)
    ensures i != Unknown
  {
  }

  /** The encoder's words are the listed ones, and the decoder takes them for what they are. */
  lemma ListedWords(cfg: Config, i: Instr)
    requires Legal(cfg, i)
    ensures Encode(i) == Listed(cfg, i) < TWO32 && Decode(cfg, Listed(cfg, i)) == i
  {
    hide Encode, Listed, Decode, Legal;
    DecodeEncode(cfg, i);
    LegalKnown(cfg, i);
    match i
    case Alu(_, _, _, _) => RegistersListed(cfg, i);
    case AluW(_, _, _, _) => RegistersListed(cfg, i);
    case AluImm(_, _, _, _) => ImmediatesListed(cfg, i);
    case AluImmW(_, _, _, _) => ImmediatesListed(cfg, i);
    case Load(_, _, _, _) => AccessesListed(cfg, i);
    case Store(_, _, _, _) => AccessesListed(cfg, i);
    case Branch(_, _, _, _) => TransfersListed(cfg, i);
    case Jal(_, _) => TransfersListed(cfg, i);
    case Jalr(_, _, _) => TransfersListed(cfg, i);
    case _ => OthersListed(cfg, i);
  }
}

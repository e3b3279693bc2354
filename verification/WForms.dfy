/** RV64 running RV32 code: when every 64-bit register holds the sign extension of its
    32-bit counterpart, replacing the arithmetic by the W forms simulates RV32. */
module WForms {
  import opened Words
  import opened Arch
  import opened MulDiv
  import opened Isa
  import opened Semantics
  import opened Memory
  import opened Runs

  // ------------------------------------------------------------ sign extension

  function Sext(u: nat): nat {
    Wrap(TWO64, Signed(TWO32, u))
  }

  const ONES33 := 0x1_FFFF_FFFF

  lemma SextShape(u: nat)
    requires u < TWO32
    ensures Sext(u) == if u < 0x8000_0000 then u else u + TWO64 - TWO32
    ensures Sext(u) % TWO32 == u
    ensures Signed(TWO64, Sext(u)) == Signed(TWO32, u)
  {
    if u < 0x8000_0000 {
      WrapSmall(TWO64, u);
    } else {
      DivModUnique(u - TWO32, TWO64, -1, u + TWO64 - TWO32);
      DivModUnique(u + TWO64 - TWO32, TWO32, TWO32 - 1, u);
    }
  }

  lemma SextInjective(a: nat, b: nat)
    requires a < TWO32 && b < TWO32
    ensures Sext(a) == Sext(b) <==> a == b
    ensures Sext(a) < Sext(b) <==> a < b
  {
    hide Sext;
    SextShape(a);
    SextShape(b);
  }

  /** An immediate of 32 bits or less extends the same way by either route. */
  lemma SextImmediate(imm: int)
    requires Fits(imm, TWO32)
    ensures Wrap(TWO64, imm) == Sext(Wrap(TWO32, imm))
  {
    SignedWrap(TWO32, imm);
  }

  // ------------------------------------------------------- bitwise operations

  lemma ZeroBitwise(x: nat)
    ensures And(x, 0) == And(0, x) == 0 && Or(x, 0) == Or(0, x) == x && Xor(x, 0) == Xor(0, x) == x
  {
  }

  lemma BitwiseStep(a: nat, b: nat, i: nat, j: nat)
    requires i < 2 && j < 2
    ensures And(2 * a + i, 2 * b + j) == 2 * And(a, b) + And(i, j)
    ensures Or(2 * a + i, 2 * b + j) == 2 * Or(a, b) + Or(i, j)
    ensures Xor(2 * a + i, 2 * b + j) == 2 * Xor(a, b) + Xor(i, j)
  {
  }

  /** Bitwise operators work on the halves of their operands separately. */
  lemma {:induction false} BitwiseSplit(a: nat, b: nat, x: nat, y: nat, k: nat, p: nat)
    requires p == Pow2(k) && a < p && b < p
    ensures And(a + x * p, b + y * p) == And(a, b) + And(x, y) * p
    ensures Or(a + x * p, b + y * p) == Or(a, b) + Or(x, y) * p
    ensures Xor(a + x * p, b + y * p) == Xor(a, b) + Xor(x, y) * p
    decreases k
  {
    hide And, Or, Xor, Pow2;
    if k == 0 {
      ZeroBitwise(0);
      Pow2Zero();
    } else {
      var q := Pow2(k - 1);
      Pow2Double(k);
      BitwiseSplit(a / 2, b / 2, x, y, k - 1, q);
      Twice(x, q);
      Twice(y, q);
      Twice(And(x, y), q);
      Twice(Or(x, y), q);
      Twice(Xor(x, y), q);
      BitwiseStep(a / 2 + x * q, b / 2 + y * q, a % 2, b % 2);
      BitwiseStep(a / 2, b / 2, a % 2, b % 2);
    }
  }

  lemma {:induction false} SelfBitwise(x: nat)
    ensures And(x, x) == x && Or(x, x) == x && Xor(x, x) == 0
  {
    if x != 0 {
      SelfBitwise(x / 2);
    }
  }

  lemma BitOrOnes(i: nat, j: nat)
    requires i < 2 && j < 2
    ensures And(i * ONES33, j * ONES33) == And(i, j) * ONES33
    ensures Or(i * ONES33, j * ONES33) == Or(i, j) * ONES33
    ensures Xor(i * ONES33, j * ONES33) == Xor(i, j) * ONES33
    ensures And(i, j) < 2 && Or(i, j) < 2 && Xor(i, j) < 2
  {
    hide And, Or, Xor;
    SelfBitwise(ONES33);
    SelfBitwise(1);
    ZeroBitwise(ONES33);
    ZeroBitwise(0);
    ZeroBitwise(1);
  }

  /** The sign bit split off, and the word of which it makes the extension. */
  lemma SextOfParts(low: nat, sign: nat)
    requires low < 0x8000_0000 && sign < 2
    ensures Sext(low + sign * 0x8000_0000) == low + sign * ONES33 * 0x8000_0000
  {
    SextShape(low + sign * 0x8000_0000);
  }

  lemma SextBitwise(a: nat, b: nat)
    requires a < TWO32 && b < TWO32
    ensures And(Sext(a), Sext(b)) == Sext(And(a, b))
    ensures Or(Sext(a), Sext(b)) == Sext(Or(a, b))
    ensures Xor(Sext(a), Sext(b)) == Sext(Xor(a, b))
  {
    hide And, Or, Xor, Sext, Pow2;
    var p := 0x8000_0000;
    var i, j := a / p, b / p;
    var x, y := a % p, b % p;
    Pow2Values();
    BitwiseSplit(x, y, i, j, 31, p);
    BitwiseSplit(x, y, i * ONES33, j * ONES33, 31, p);
    BitwiseBound(x, y, 31);
    BitOrOnes(i, j);
    SextOfParts(x, i);
    SextOfParts(y, j);
    SextOfParts(And(x, y), And(i, j));
    SextOfParts(Or(x, y), Or(i, j));
    SextOfParts(Xor(x, y), Xor(i, j));
  }

  // ---------------------------------------------------------- the translation

  predicate HasWForm(op: AluOp) {
    op in {ADD, SUB, SLL, SRL, SRA, MUL, DIV, DIVU, REM, REMU}
  }

  /** RV32 code for an RV64 machine: W forms for the arithmetic, all else as it is. */
  function Translate(i: Instr): Instr {
    match i
    case Alu(op, rd, rs1, rs2) => if HasWForm(op) then AluW(op, rd, rs1, rs2) else i
    case AluImm(op, rd, rs1, imm) => if HasWForm(op) then AluImmW(op, rd, rs1, imm) else i
    case _ => i
  }

  /** The RV32 instructions this covers: the high products have no W form, the counters
      differ in width, and AUIPC is treated on its own below. */
  predicate Portable(i: Instr) {
    match i
    case Alu(op, _, _, _) => op !in {MULH, MULHSU, MULHU}
    case AluImm(op, _, _, imm) => op !in {MULH, MULHSU, MULHU} && Fits(imm, 0x1000)
    case Load(mem, _, _, imm) => mem !in {D, WU} && Fits(imm, 0x1000)
    case Store(mem, _, _, imm) => mem != D && Fits(imm, 0x1000)
    case Branch(_, _, _, imm) => Fits(imm, 0x2000) && imm % 2 == 0
    case Lui(_, imm) => Fits(imm, TWO32)
    case Jal(_, imm) => Fits(imm, 0x20_0000) && imm % 2 == 0
    case Jalr(_, _, imm) => Fits(imm, 0x1000)
    case Fence => true
    case Env(_, _, _) => true
    case _ => false
  }

  // ------------------------------------------------------------- the relation

  /** Above every mapped address of either machine. */
  const BEYOND := 0x7000_0000

  /** Equal, or both where nothing is mapped. */
  predicate Close(x: nat, y: nat) {
    x == y || (x >= BEYOND && y >= BEYOND)
  }

  predicate SameRegs(r: Regs, r': Regs) {
    forall k :: 0 <= k < 32 ==> r'[k] == Sext(r[k])
  }

  predicate Related(s: State, s': State) {
    && SameRegs(s.regs, s'.regs) && Close(s.pc, s'.pc)
    && s'.ram == s.ram && s'.rom == s.rom && s'.console == s.console
  }

  function Rv32(mext: bool): Config { Config(false, mext) }
  function Rv64(mext: bool): Config { Config(true, mext) }

  // ---------------------------------------------------------------- the cases

  lemma AluSimulates(op: AluOp, a: nat, b: nat)
    requires a < TWO32 && b < TWO32 && op !in {MULH, MULHSU, MULHU, NOALU}
    ensures HasWForm(op) ==> AluWAt(op, Sext(a), Sext(b)) == Sext(AluAt(TWO32, 32, op, a, b))
    ensures !HasWForm(op) ==> AluAt(TWO64, 64, op, Sext(a), Sext(b)) == Sext(AluAt(TWO32, 32, op, a, b))
  {
    hide And, Or, Xor, Pow2, Quotient, Remainder, Wrap, Signed;
    SextShape(a);
    SextShape(b);
    SextInjective(a, b);
    SextBitwise(a, b);
    SextShape(0);
    SextShape(1);
  }

  lemma ImmSimulates(op: AluOp, a: nat, imm: int)
    requires a < TWO32 && op !in {MULH, MULHSU, MULHU, NOALU} && Fits(imm, 0x1000)
    ensures HasWForm(op) ==> AluWAt(op, Sext(a), Wrap(TWO64, imm)) == Sext(AluAt(TWO32, 32, op, a, Wrap(TWO32, imm)))
    ensures !HasWForm(op) ==>
              AluAt(TWO64, 64, op, Sext(a), Wrap(TWO64, imm)) == Sext(AluAt(TWO32, 32, op, a, Wrap(TWO32, imm)))
  {
    hide AluAt, AluWAt, HasWForm, Wrap;
    SextImmediate(imm);
    AluSimulates(op, a, Wrap(TWO32, imm));
  }

  /** Comparisons, unsigned ones included, decide alike. */
  lemma CondSimulates(c: Cond, a: nat, b: nat)
    requires a < TWO32 && b < TWO32
    ensures CondHolds(TWO64, c, Sext(a), Sext(b)) == CondHolds(TWO32, c, a, b)
  {
    hide Sext, Signed;
    SextShape(a);
    SextShape(b);
    SextInjective(a, b);
  }

  /** base + offset reaches the same mapped address or, on both, none. */
  lemma AddressSimulates(a: nat, imm: int)
    requires a < TWO32 && Fits(imm, 0x1000)
    ensures Close(Wrap(TWO32, a + imm), Wrap(TWO64, Sext(a) + imm))
    ensures var x, y := Wrap(TWO32, a + imm), Wrap(TWO64, Sext(a) + imm);
            Close(x - x % 2, y - y % 2)
  {
    hide Sext;
    SextShape(a);
    if a < 0x8000_0000 && a + imm >= 0 {
      WrapSmall(TWO32, a + imm);
      WrapSmall(TWO64, a + imm);
    } else if a < 0x8000_0000 {
      DivModUnique(a + imm, TWO32, -1, a + imm + TWO32);
      DivModUnique(a + imm, TWO64, -1, a + imm + TWO64);
    } else if a + imm < TWO32 {
      WrapSmall(TWO32, a + imm);
      WrapSmall(TWO64, a + imm + TWO64 - TWO32);
    } else {
      DivModUnique(a + imm, TWO32, 1, a + imm - TWO32);
      DivModUnique(a + imm + TWO64 - TWO32, TWO64, 1, a + imm - TWO32);
    }
  }

  lemma CloseMapped(x: nat, y: nat, n: nat)
    requires Close(x, y)
    ensures InRam(x, n) == InRam(y, n) && Mapped(x, n) == Mapped(y, n)
    ensures Mapped(x, n) || InRam(x, n) ==> x == y
  {
  }

  lemma ExtendSigned(m: int, v: nat)
    requires v < m && (m == 0x100 || m == 0x1_0000 || m == TWO32)
    ensures Wrap(TWO64, Signed(m, v)) == Sext(Wrap(TWO32, Signed(m, v)))
  {
    hide Wrap, Sext;
    SextImmediate(Signed(m, v));
  }

  lemma ExtendSimulates(mem: MemOp, v: nat)
    requires mem !in {D, WU, NOMEM} && v < Pow2(8 * Bytes(mem))
    ensures Extend(TWO64, mem, v) == Sext(Extend(TWO32, mem, v)) && Extend(TWO32, mem, v) < TWO32
  {
    hide Pow2, Wrap;
    Pow2Values();
    match mem
    case B => ExtendSigned(0x100, v);
    case H => ExtendSigned(0x1_0000, v);
    case W => ExtendSigned(TWO32, v);
    case _ => SextShape(v);
  }

  /** A store of at most 32 bits writes the same bytes. */
  lemma StoreSimulates(ram: Ram, o: nat, v: nat, n: nat)
    requires v < TWO32 && o + n <= RAM_SIZE && n in {1, 2, 4}
    ensures WriteLE(ram, o, Sext(v), n) == WriteLE(ram, o, v, n)
  {
    hide Pow2, BytesOf, Sext;
    SextShape(v);
    Pow2Values();
    if v >= 0x8000_0000 {
      BytesOfMod(v, (TWO64 - TWO32) / Pow2(8 * n), n);
    }
  }

  lemma PcSimulates(pc: nat, imm: int)
    requires pc < 0x6000_0000 && Fits(imm, 0x20_0000)
    ensures Close(Wrap(TWO32, pc + imm), Wrap(TWO64, pc + imm))
  {
    if pc + imm >= 0 {
      WrapSmall(TWO32, pc + imm);
      WrapSmall(TWO64, pc + imm);
    } else {
      DivModUnique(pc + imm, TWO32, -1, pc + imm + TWO32);
      DivModUnique(pc + imm, TWO64, -1, pc + imm + TWO64);
    }
  }

  lemma SetRegSimulates(s: State, s': State, rd: Reg, v: nat)
    requires SameRegs(s.regs, s'.regs)
    ensures SameRegs(SetReg(s, rd, v).regs, SetReg(s', rd, Sext(v)).regs)
  {
    hide Sext;
  }

  // ------------------------------------------------------------- one instruction

  /** The machines before a common instruction: related, and really executing. */
  predicate InStep(mext: bool, i: Instr, s: State, s': State) {
    Sound(Rv32(mext), s) && Related(s, s') && Mapped(s.pc, 4) && Portable(i)
  }

  lemma NextSimulates(mext: bool, i: Instr, s: State, s': State)
    requires InStep(mext, i, s, s')
    ensures s'.pc == s.pc < 0x6000_0000
    ensures Wrap(TWO32, s.pc + 4) == Wrap(TWO64, s'.pc + 4) == s.pc + 4 == Sext(s.pc + 4)
  {
    hide Sext;
    CloseMapped(s.pc, s'.pc, 4);
    WrapSmall(TWO32, s.pc + 4);
    WrapSmall(TWO64, s.pc + 4);
    SextShape(s.pc + 4);
  }

  lemma NoOpForm()
    ensures !HasWForm(NOALU)
  {
  }

  lemma ArithmeticSimulates(mext: bool, i: Instr, s: State, s': State, x: nat, y: nat, x': nat, y': nat)
    requires InStep(mext, i, s, s') && (i.Alu? || i.AluImm?)
    ensures Related(Exec(Rv32(mext), i, s, x, y), Exec(Rv64(mext), Translate(i), s', x', y'))
  {
    hide Sext, Wrap, AluAt, AluWAt, HasWForm, Mapped;
    NextSimulates(mext, i, s, s');
    if i.op != NOALU {
      var a := s.regs[i.rs1];
      match i {
        case Alu(op, rd, _, rs2) => AluSimulates(op, a, s.regs[rs2]);
        case AluImm(op, rd, _, imm) => ImmSimulates(op, a, imm);
      }
      SetRegSimulates(s.(pc := s.pc + 4), s'.(pc := s.pc + 4), i.rd, AluOf(Rv32(mext), i, s));
    } else {
      NoOpForm();
    }
  }

  lemma CloseSame(x: nat)
    ensures Close(x, x)
  {
  }

  lemma LoadSimulates(mext: bool, i: Instr, s: State, s': State, x: nat, y: nat, x': nat, y': nat)
    requires InStep(mext, i, s, s') && i.Load?
    ensures Related(Exec(Rv32(mext), i, s, x, y), Exec(Rv64(mext), Translate(i), s', x', y'))
  {
    hide Sext, Wrap, Extend, Mapped, Peek, Pow2, Close;
    NextSimulates(mext, i, s, s');
    CloseSame(s.pc + 4);
    var addr, addr' := Address(Rv32(mext), s, i.rs1, i.imm), Address(Rv64(mext), s', i.rs1, i.imm);
    var n := Bytes(i.mem);
    AddressSimulates(s.regs[i.rs1], i.imm);
    CloseMapped(addr, addr', n);
    if i.mem != NOMEM && Mapped(addr, n) {
      var t, t' := s.(pc := s.pc + 4), s'.(pc := s.pc + 4);
      PeekSame(t, t', addr, n);
      PeekBound(t, addr, n);
      ExtendSimulates(i.mem, Peek(t, addr, n));
      SetRegSimulates(t, t', i.rd, Extend(TWO32, i.mem, Peek(t, addr, n)));
    }
  }

  lemma InRamStart(addr: nat, n: nat)
    requires InRam(addr, n)
    ensures RAM_START <= addr && addr - RAM_START + n <= RAM_SIZE
  {
  }

  lemma StoreExecSimulates(mext: bool, i: Instr, s: State, s': State, x: nat, y: nat, x': nat, y': nat)
    requires InStep(mext, i, s, s') && i.Store?
    ensures Related(Exec(Rv32(mext), i, s, x, y), Exec(Rv64(mext), Translate(i), s', x', y'))
  {
    hide Sext, Wrap, InRam, Mapped, WriteLE, Close;
    NextSimulates(mext, i, s, s');
    CloseSame(s.pc + 4);
    var addr, addr' := Address(Rv32(mext), s, i.rs1, i.imm), Address(Rv64(mext), s', i.rs1, i.imm);
    var n := Bytes(i.mem);
    AddressSimulates(s.regs[i.rs1], i.imm);
    CloseMapped(addr, addr', n);
    if i.mem != NOMEM && InRam(addr, n) {
      InRamStart(addr, n);
      StoreSimulates(s.ram, addr - RAM_START, s.regs[i.rs2], n);
    }
  }

  lemma TransferSimulates(mext: bool, i: Instr, s: State, s': State, x: nat, y: nat, x': nat, y': nat)
    requires InStep(mext, i, s, s') && (i.Branch? || i.Jal? || i.Jalr?)
    ensures Related(Exec(Rv32(mext), i, s, x, y), Exec(Rv64(mext), Translate(i), s', x', y'))
    ensures Taken(Rv32(mext), i, s) == Taken(Rv64(mext), Translate(i), s')
  {
    hide Sext, Wrap, Mapped, CondHolds, Close;
    NextSimulates(mext, i, s, s');
    CloseSame(s.pc + 4);
    match i
    case Branch(cond, rs1, rs2, imm) =>
      CondSimulates(cond, s.regs[rs1], s.regs[rs2]);
      PcSimulates(s.pc, imm);
    case Jal(rd, imm) =>
      PcSimulates(s.pc, imm);
      SetRegSimulates(s, s', rd, s.pc + 4);
    case Jalr(rd, rs1, imm) =>
      AddressSimulates(s.regs[rs1], imm);
      SetRegSimulates(s, s', rd, s.pc + 4);
  }

  lemma SystemSimulates(mext: bool, i: Instr, s: State, s': State, x: nat, y: nat, x': nat, y': nat)
    requires InStep(mext, i, s, s') && (i.Lui? || i.Fence? || i.Env?)
    ensures Related(Exec(Rv32(mext), i, s, x, y), Exec(Rv64(mext), Translate(i), s', x', y'))
    ensures Stops(i, s) == Stops(Translate(i), s')
  {
    hide Sext, Wrap, Mapped, Close;
    NextSimulates(mext, i, s, s');
    CloseSame(s.pc + 4);
    match i
    case Lui(rd, imm) =>
      SextImmediate(imm);
      SetRegSimulates(s, s', rd, Wrap(TWO32, imm));
    case Env(_, _, _) =>
      SextShape(10);
      SextShape(11);
      SextInjective(s.regs[10], 10);
      SextInjective(s.regs[10], 11);
      SextShape(s.regs[11]);
    case Fence =>
  }

  lemma PortableKinds(i: Instr, s: State, s': State, mext: bool)
    requires InStep(mext, i, s, s')
    ensures i.Alu? || i.AluImm? || i.Load? || i.Store? || i.Branch? || i.Jal? || i.Jalr? || i.Lui? || i.Fence? || i.Env?
  {
  }

  /** One RV32 instruction and its translation keep the machines related, branch alike and
      stop alike. */
  lemma StepSimulates(mext: bool, i: Instr, s: State, s': State, x: nat, y: nat, x': nat, y': nat)
    requires InStep(mext, i, s, s')
    ensures Related(Exec(Rv32(mext), i, s, x, y), Exec(Rv64(mext), Translate(i), s', x', y'))
    ensures Taken(Rv32(mext), i, s) == Taken(Rv64(mext), Translate(i), s')
    ensures Stops(i, s) == Stops(Translate(i), s')
  {
    hide Exec, InStep, Related, CondHolds;
    PortableKinds(i, s, s', mext);
    if i.Alu? || i.AluImm? {
      ArithmeticSimulates(mext, i, s, s', x, y, x', y');
    } else if i.Load? {
      LoadSimulates(mext, i, s, s', x, y, x', y');
    } else if i.Store? {
      StoreExecSimulates(mext, i, s, s', x, y, x', y');
    } else if i.Branch? || i.Jal? || i.Jalr? {
      TransferSimulates(mext, i, s, s', x, y, x', y');
    } else {
      SystemSimulates(mext, i, s, s', x, y, x', y');
    }
  }

  lemma AuipcValue(pc: nat, imm: int)
    requires pc < 0x6000_0000 && Fits(imm, TWO32)
    ensures Wrap(TWO64, pc + imm) == Sext(Wrap(TWO32, pc + imm)) <==> pc + imm < 0x8000_0000
  {
    hide Sext;
    if pc + imm < 0x8000_0000 {
      SextImmediate(pc + imm);
    } else {
      WrapSmall(TWO32, pc + imm);
      WrapSmall(TWO64, pc + imm);
      SextShape(pc + imm);
    }
  }

  /** AUIPC is no exception exactly when its result is below 2^31. */
  lemma AuipcSimulatesIff(mext: bool, rd: Reg, imm: int, s: State, s': State, x: nat, y: nat, x': nat, y': nat)
    requires Sound(Rv32(mext), s) && Related(s, s') && Mapped(s.pc, 4) && Fits(imm, TWO32) && rd != 0
    ensures Related(Exec(Rv32(mext), Auipc(rd, imm), s, x, y), Exec(Rv64(mext), Auipc(rd, imm), s', x', y'))
            <==> s.pc + imm < 0x8000_0000
  {
    hide Sext, Wrap, Mapped, Close;
    NextSimulates(mext, Fence, s, s');
    CloseSame(s.pc + 4);
    AuipcValue(s.pc, imm);
    var t, t' := Exec(Rv32(mext), Auipc(rd, imm), s, x, y), Exec(Rv64(mext), Auipc(rd, imm), s', x', y');
    assert t.regs[rd] == Wrap(TWO32, s.pc + imm) && t'.regs[rd] == Wrap(TWO64, s.pc + imm);
    if s.pc + imm < 0x8000_0000 {
      SetRegSimulates(s, s', rd, Wrap(TWO32, s.pc + imm));
    }
  }

  /** One that fails: auipc x5, 0x7ffff at 0x1000 gives 2^31, which RV64 does not extend. */
  lemma AuipcAtTheBound(mext: bool, s: State)
    requires Sound(Rv32(mext), s) && s.pc == 0x1000
    ensures var s' := s.(regs := seq(32, k requires 0 <= k < 32 => Sext(s.regs[k])));
            var t := Exec(Rv32(mext), Auipc(5, 0x7FFF_F000), s, 0, 0);
            var t' := Exec(Rv64(mext), Auipc(5, 0x7FFF_F000), s', 0, 0);
            && Related(s, s') && !Related(t, t')
            && t.regs[5] == 0x8000_0000 && t'.regs[5] == 0x8000_0000 != Sext(t.regs[5])
  {
    hide Sext, Wrap;
    var s' := s.(regs := seq(32, k requires 0 <= k < 32 => Sext(s.regs[k])));
    WrapSmall(TWO32, 0x8000_0000);
    WrapSmall(TWO64, 0x8000_0000);
    SextShape(0x8000_0000);
    AuipcSimulatesIff(mext, 5, 0x7FFF_F000, s, s', 0, 0, 0, 0);
  }
}

/** The emulator: src/cpu/core.c with the memory, bus, counter and timing macros that it
    expands, and the run loop of src/main.c. Each method changes the state in place and
    is specified by Semantics. */
module Machine {
  import opened Words
  import opened Arch
  import opened MulDiv
  import opened Isa
  import opened Macros
  import opened Semantics
  import opened Memory
  import opened Alu
  import opened Runs

  /** The working copy of the instruction's fields. */
  datatype Latch = Latch(rs1: Reg, rs2: Reg, rd: Reg, imm: int, isRegWrite: bool, isMemLoad: bool)

  const EMPTY := Latch(0, 0, 0, 0, false, false)

  /** The register file as the end of a step leaves it. */
  function Zeroed(r: seq<nat>): seq<nat>
    requires |r| == 32
  {
    r[0 := 0]
  }

  lemma ZeroedSet(r: Regs, rd: Reg, v: nat)
    requires r[0] == 0
    ensures Zeroed(r[rd := v]) == if rd == 0 then r else r[rd := v]
  {
  }

  /** What a retiring instruction must leave in the latch. */
  predicate Latched(l: Latch, i: Instr) {
    l.rd == RdOf(i) && l.isRegWrite == WritesReg(i) && l.isMemLoad == i.Load?
  }

  /** The bus returns the word at pc, sign-extended to a register. */
  lemma FetchedWord(cfg: Config, c: Semantics.Core)
    ensures LoadOp(cfg, 2) == W
    ensures FetchWord(c.st) < TWO32
    ensures Mapped(c.st.pc, 4) ==> Extend(cfg.Modulus(), W, Peek(c.st, c.st.pc, 4)) % TWO32 == FetchWord(c.st)
    ensures !Mapped(c.st.pc, 4) ==> FetchWord(c.st) == 0
  {
    hide Peek, Pow2;
    if Mapped(c.st.pc, 4) {
      var v := Peek(c.st, c.st.pc, 4);
      PeekBound(c.st, c.st.pc, 4);
      Pow2Values();
      var x := Signed(TWO32, v);
      var k := x / cfg.Modulus();
      assert Wrap(cfg.Modulus(), x) == x - k * cfg.Modulus();
    }
  }

  /** One round of the loop, as RunLoop unfolds it. */
  lemma LoopStep(cfg: Config, c: Semantics.Core)
    requires c.mcycle < MAX_CYCLES
    ensures FetchWord(c.st) < TWO32 && Fetched(c).st == c.st
    ensures Step(cfg, c) == StepInstr(cfg, Fetched(c), Decode(cfg, FetchWord(c.st)))
    ensures Current(cfg, c) == Decode(cfg, FetchWord(c.st))
    ensures FetchWord(c.st) == 0 ==> RunLoop(cfg, c) == (Fetched(c), ZeroWord)
    ensures FetchWord(c.st) != 0 ==>
              && Step(cfg, c).mcycle > c.mcycle
              && RunLoop(cfg, c) == if Stops(Current(cfg, c), c.st) then (Step(cfg, c), Exited)
                                    else RunLoop(cfg, Step(cfg, c))
  {
    hide FetchWord, Decode, StepInstr, Tick, Cost;
    StepAdvances(cfg, c);
    FetchedWord(cfg, c);
  }

  lemma LoopLimit(cfg: Config, c: Semantics.Core)
    requires c.mcycle >= MAX_CYCLES
    ensures RunLoop(cfg, c) == (c, CycleLimit)
  {
  }

  lemma ImmediateForm(op: nat)
    requires op < 8
    ensures And(op, 4) != 0 <==> op >= 4
  {
    hide And, Pow2;
    Pow2Values();
    AndMask(op, 4, 1, 2, 0, op / 4, op % 4);
  }

  lemma EvenTarget(cfg: Config, target: nat)
    requires target < cfg.Modulus()
    ensures And(target, cfg.Modulus() - 2) == target - target % 2
  {
    hide And, Pow2;
    ModulusIsPow2(cfg);
    ClearLowBit(target, cfg.Xlen());
  }

  lemma ImmOpIsReal(f3: nat, bit5: bool)
    requires f3 < 8
    ensures ImmOp(f3, bit5) != NOALU
  {
  }

  /** What an integer instruction does, and that it costs only its load-use stall. */
  lemma AluEffect(cfg: Config, i: Instr, c: Semantics.Core, nextPc: nat)
    requires i.Alu? || i.AluImm? || i.AluW? || i.AluImmW?
    requires nextPc == Wrap(cfg.Modulus(), c.st.pc + 4)
    ensures HazardCycles(c.perf, i) == LoadUseCycles(c.perf, i.rs1, Rs2Of(i))
    ensures !DataStall(cfg, i, c.st) && !Taken(cfg, i, c.st)
    ensures Exec(cfg, i, c.st, Tick(c.mcycle, HazardCycles(c.perf, i)), c.minstret)
            == State(if i.op == NOALU || i.rd == 0 then c.st.regs else c.st.regs[i.rd := AluOf(cfg, i, c.st)],
                     nextPc, c.st.ram, c.st.rom, c.st.console)
  {
    hide AluOf;
  }

  function Loaded(cfg: Config, mem: MemOp, bytes: seq<Byte>, a: nat, val0: nat): nat
    requires mem == NOMEM || a + Bytes(mem) <= |bytes|
  {
    if mem == NOMEM then val0 else Extend(cfg.Modulus(), mem, ReadLE(bytes, a, Bytes(mem)))
  }

  function Stored(mem: MemOp, bytes: seq<Byte>, a: nat, v: nat): seq<Byte>
    requires mem == NOMEM || a + Bytes(mem) <= |bytes|
  {
    if mem == NOMEM then bytes else WriteLE(bytes, a, v, Bytes(mem))
  }

  predicate MemStall(mem: MemOp, addr: nat) {
    mem != NOMEM && Misaligned(addr, Bytes(mem))
  }

  lemma LowBits(addr: nat, size: nat)
    requires size in {2, 4, 8}
    ensures And(addr, size - 1) == addr % size
  {
    hide And, Pow2;
    Pow2Values();
    AndLow(addr, if size == 2 then 1 else if size == 4 then 2 else 3, addr / size, addr % size);
  }

  class Emulator {
    const cfg: Config
    const rom: array<Byte>
    const ram: array<Byte>
    const regfile: array<nat>
    var pc: nat
    var perf: Perf
    var mcycle: nat
    var minstret: nat
    var console: seq<Byte>

    /** Shapes and ranges; x0 may hold a scratch value within a step. */
    ghost predicate Shaped()
      reads this, regfile
    {
      && rom.Length == ROM_SIZE && ram.Length == RAM_SIZE && regfile.Length == 32 && rom != ram
      && pc < cfg.Modulus() && mcycle < TWO64 && minstret < TWO64
      && forall r :: 0 <= r < 32 ==> regfile[r] < cfg.Modulus()
    }

    ghost predicate Valid()
      reads this, regfile
    {
      Shaped() && regfile[0] == 0
    }

    /** The architectural state as it will be once x0 is cleared and pc set. */
    ghost function Settled(nextPc: nat): State
      requires Shaped()
      reads this, rom, ram, regfile
    {
      State(Zeroed(regfile[..]), nextPc, ram[..], rom[..], console)
    }

    ghost function Core(): Core
      requires Valid()
      reads this, rom, ram, regfile
    {
      Semantics.Core(State(regfile[..], pc, ram[..], rom[..], console), perf, mcycle, minstret)
    }

    // --------------------------------------------------------------- inc/perf.h

    method PerfHazard(l: Latch)
      requires mcycle < TWO64
      modifies this`mcycle
      ensures mcycle == Tick(old(mcycle), LoadUseCycles(perf, l.rs1, l.rs2))
    {
      TickZero(mcycle);
      if perf.prevLoad && perf.prevRd != 0 && (l.rs1 == perf.prevRd || l.rs2 == perf.prevRd) {
        mcycle := Tick(mcycle, 1);
      }
    }

    method PerfBranchHazard(l: Latch)
      requires mcycle < TWO64
      modifies this`mcycle
      ensures mcycle == Tick(old(mcycle), BranchUseCycles(perf, l.rs1, l.rs2))
    {
      hide Tick;
      TickZero(mcycle);
      TickTick(mcycle, 1, 1);
      TickTick(mcycle, 2, 1);
      if perf.prevRd != 0 && perf.prevWrite && (l.rs1 == perf.prevRd || l.rs2 == perf.prevRd) {
        mcycle := Tick(mcycle, 1);
      }
      if perf.prev2Rd != 0 && perf.prev2Load && (l.rs1 == perf.prev2Rd || l.rs2 == perf.prev2Rd) {
        mcycle := Tick(mcycle, 1);
      }
      if perf.prevLoad && perf.prevRd != 0 && (l.rs1 == perf.prevRd || l.rs2 == perf.prevRd) {
        mcycle := Tick(mcycle, 1);
      }
    }

    /** A taken branch flushes the fetched instruction. */
    method PerfBranchTaken()
      modifies this`mcycle
      ensures mcycle == Tick(old(mcycle), 1)
    {
      mcycle := Tick(mcycle, 1);
    }

    method PerfMemory(size: nat, addr: nat)
      requires mcycle < TWO64 && size in {2, 4, 8}
      modifies this`mcycle
      ensures mcycle == Tick(old(mcycle), Count(Misaligned(addr, size)))
    {
      TickZero(mcycle);
      LowBits(addr, size);
      if And(addr, size - 1) != 0 {
        mcycle := Tick(mcycle, 1);
      }
    }

    method PerfCycle(l: Latch)
      modifies this`mcycle, this`minstret, this`perf
      ensures mcycle == Tick(old(mcycle), 1) && minstret == Tick(old(minstret), 1)
      ensures perf == Perf(l.rd, old(perf).prevRd, l.isMemLoad, old(perf).prevLoad, l.isRegWrite)
    {
      mcycle := Tick(mcycle, 1);
      minstret := Tick(minstret, 1);
      perf := perf.(prev2Load := perf.prevLoad);
      perf := perf.(prevLoad := l.isMemLoad);
      perf := perf.(prev2Rd := perf.prevRd);
      perf := perf.(prevRd := l.rd);
      perf := perf.(prevWrite := l.isRegWrite);
    }

    // ---------------------------------------------------------------- inc/cpu.h

    method RomRead(addr: nat, op: nat, val0: nat) returns (val: nat)
      requires Shaped() && (LoadOp(cfg, op) != NOMEM ==> InRom(addr, Bytes(LoadOp(cfg, op))))
      modifies this`mcycle
      ensures val == Loaded(cfg, LoadOp(cfg, op), rom[..], addr, val0)
      ensures mcycle == Tick(old(mcycle), Count(MemStall(LoadOp(cfg, op), addr)))
    {
      hide Join2, Join4, Join8, Tick, Signed, ReadLE;
      TickZero(mcycle);
      var paddr, m := addr, cfg.Modulus();
      val := val0;
      if op == 0 {
        ReadOne(rom[..], paddr);
        val := Wrap(m, Signed(0x100, rom[paddr]));
      } else if op == 4 {
        ReadOne(rom[..], paddr);
        val := rom[paddr];
      } else if op == 1 {
        PerfMemory(2, addr);
        ReadTwo(rom[..], paddr);
        val := Wrap(m, Signed(0x1_0000, Join2(rom[paddr + 1], rom[paddr])));
      } else if op == 5 {
        PerfMemory(2, addr);
        ReadTwo(rom[..], paddr);
        val := Join2(rom[paddr + 1], rom[paddr]);
      } else if op == 2 {
        PerfMemory(4, addr);
        ReadFour(rom[..], paddr);
        val := Wrap(m, Signed(TWO32, Join4(rom[paddr + 3], rom[paddr + 2], rom[paddr + 1], rom[paddr])));
      } else if cfg.rv64 && op == 6 {
        PerfMemory(4, addr);
        ReadFour(rom[..], paddr);
        val := Join4(rom[paddr + 3], rom[paddr + 2], rom[paddr + 1], rom[paddr]);
      } else if cfg.rv64 && op == 3 {
        PerfMemory(8, addr);
        ReadEight(rom[..], paddr);
        val := Wrap(m, Signed(TWO64, Join8(rom[paddr + 7], rom[paddr + 6], rom[paddr + 5], rom[paddr + 4],
                                           rom[paddr + 3], rom[paddr + 2], rom[paddr + 1], rom[paddr])));
      }
    }

    method RamRead(addr: nat, op: nat, val0: nat) returns (val: nat)
      requires Shaped() && RAM_START <= addr
      requires LoadOp(cfg, op) != NOMEM ==> InRam(addr, Bytes(LoadOp(cfg, op)))
      modifies this`mcycle
      ensures val == Loaded(cfg, LoadOp(cfg, op), ram[..], addr - RAM_START, val0)
      ensures mcycle == Tick(old(mcycle), Count(MemStall(LoadOp(cfg, op), addr)))
    {
      hide Join2, Join4, Join8, Tick, Signed, ReadLE;
      TickZero(mcycle);
      var paddr, m := addr - RAM_START, cfg.Modulus();
      val := val0;
      if op == 0 {
        ReadOne(ram[..], paddr);
        val := Wrap(m, Signed(0x100, ram[paddr]));
      } else if op == 4 {
        ReadOne(ram[..], paddr);
        val := ram[paddr];
      } else if op == 1 {
        PerfMemory(2, addr);
        ReadTwo(ram[..], paddr);
        val := Wrap(m, Signed(0x1_0000, Join2(ram[paddr + 1], ram[paddr])));
      } else if op == 5 {
        PerfMemory(2, addr);
        ReadTwo(ram[..], paddr);
        val := Join2(ram[paddr + 1], ram[paddr]);
      } else if op == 2 {
        PerfMemory(4, addr);
        ReadFour(ram[..], paddr);
        val := Wrap(m, Signed(TWO32, Join4(ram[paddr + 3], ram[paddr + 2], ram[paddr + 1], ram[paddr])));
      } else if cfg.rv64 && op == 6 {
        PerfMemory(4, addr);
        ReadFour(ram[..], paddr);
        val := Join4(ram[paddr + 3], ram[paddr + 2], ram[paddr + 1], ram[paddr]);
      } else if cfg.rv64 && op == 3 {
        PerfMemory(8, addr);
        ReadEight(ram[..], paddr);
        val := Wrap(m, Signed(TWO64, Join8(ram[paddr + 7], ram[paddr + 6], ram[paddr + 5], ram[paddr + 4],
                                           ram[paddr + 3], ram[paddr + 2], ram[paddr + 1], ram[paddr])));
      }
    }

    method RamWrite(addr: nat, op: nat, val: nat)
      requires Shaped() && RAM_START <= addr
      requires StoreOp(cfg, op) != NOMEM ==> InRam(addr, Bytes(StoreOp(cfg, op)))
      modifies ram, this`mcycle
      ensures ram[..] == Stored(StoreOp(cfg, op), old(ram[..]), addr - RAM_START, val)
      ensures mcycle == Tick(old(mcycle), Count(MemStall(StoreOp(cfg, op), addr)))
    {
      hide Tick, Shr, WriteLE;
      TickZero(mcycle);
      var paddr := addr - RAM_START;
      if op == 0 {
        ram[paddr] := val % 256;
        ByteWrites(old(ram[..]), ram[..], paddr, val, 1);
      } else if op == 1 {
        PerfMemory(2, addr);
        ram[paddr] := val % 256;
        ram[paddr + 1] := Shr(val, 8) % 256;
        ByteWrites(old(ram[..]), ram[..], paddr, val, 2);
      } else if op == 2 {
        PerfMemory(4, addr);
        ram[paddr] := val % 256;
        ram[paddr + 1] := Shr(val, 8) % 256;
        ram[paddr + 2] := Shr(val, 16) % 256;
        ram[paddr + 3] := Shr(val, 24) % 256;
        ByteWrites(old(ram[..]), ram[..], paddr, val, 4);
      } else if cfg.rv64 && op == 3 {
        PerfMemory(8, addr);
        ram[paddr] := val % 256;
        ram[paddr + 1] := Shr(val, 8) % 256;
        ram[paddr + 2] := Shr(val, 16) % 256;
        ram[paddr + 3] := Shr(val, 24) % 256;
        ram[paddr + 4] := Shr(val, 32) % 256;
        ram[paddr + 5] := Shr(val, 40) % 256;
        ram[paddr + 6] := Shr(val, 48) % 256;
        ram[paddr + 7] := Shr(val, 56) % 256;
        ByteWrites(old(ram[..]), ram[..], paddr, val, 8);
      }
    }

    // ---------------------------------------------------------------- inc/bus.h

    method BusRead(addr: nat, op: nat, val0: nat) returns (val: nat)
      requires Shaped()
      modifies this`mcycle
      ensures var mem := LoadOp(cfg, op);
              if mem == NOMEM || !Mapped(addr, Bytes(mem)) then val == val0 && mcycle == old(mcycle)
              else
                && val == Extend(cfg.Modulus(), mem, Peek(old(Settled(pc)), addr, Bytes(mem)))
                && mcycle == Tick(old(mcycle), Count(Misaligned(addr, Bytes(mem))))
    {
      hide Tick, ReadLE, Extend;
      TickZero(mcycle);
      var range := if op == 1 || op == 5 then 1
                   else if op == 2 then 3
                   else if cfg.rv64 && op == 6 then 3
                   else if cfg.rv64 && op == 3 then 7
                   else 0;
      if RAM_START <= addr && addr < RAM_START + RAM_SIZE - range {
        val := RamRead(addr, op, val0);
      } else if addr < ROM_SIZE - range {
        val := RomRead(addr, op, val0);
      } else {
        val := val0;
      }
    }

    method BusWrite(addr: nat, op: nat, val: nat)
      requires Shaped()
      modifies ram, this`mcycle
      ensures var mem := StoreOp(cfg, op);
              if mem == NOMEM || !InRam(addr, Bytes(mem)) then ram[..] == old(ram[..]) && mcycle == old(mcycle)
              else
                && ram[..] == WriteLE(old(ram[..]), addr - RAM_START, val, Bytes(mem))
                && mcycle == Tick(old(mcycle), Count(Misaligned(addr, Bytes(mem))))
    {
      hide Tick, WriteLE;
      TickZero(mcycle);
      var range := if op == 1 || op == 5 then 1
                   else if op == 2 then 3
                   else if cfg.rv64 && op == 6 then 3
                   else if cfg.rv64 && op == 3 then 7
                   else 0;
      if RAM_START <= addr && addr < RAM_START + RAM_SIZE - range {
        RamWrite(addr, op, val);
      }
    }

    /** `cpu.regfile[rd] = v`. */
    method Write(rd: Reg, v: nat)
      requires Shaped() && v < cfg.Modulus()
      modifies regfile
      ensures Shaped() && regfile[..] == old(regfile[..])[rd := v]
    {
      regfile[rd] := v;
    }

    // ------------------------------------------------------- src/cpu/core.c, OP

    /** The multiply/divide half of the OP case. */
    method ExecMulDiv(funct3: nat, rd: Reg, rs1: Reg, rs2: Reg)
      requires Shaped() && funct3 < 8
      modifies regfile
      ensures Shaped()
      ensures var v := AluAt(cfg.Modulus(), cfg.Xlen(), MulDivOp(funct3), old(regfile[rs1]), old(regfile[rs2]));
              regfile[..] == old(regfile[..])[rd := v]
    {
      hide AluAt, Signed, Wrap, RvMul, CMulh, CMulhsu, CMulhu, RvDiv, RvRem, RvDivu, RvRemu;
      var m, a, b := cfg.Modulus(), regfile[rs1], regfile[rs2];
      MulDivOk(cfg, a, b);
      AluBound(cfg, MulDivOp(funct3), a, b);
      if funct3 == 0 {
        Write(rd, RvMul(m, a, b));
      } else if funct3 == 1 {
        Write(rd, Wrap(m, CMulh(cfg.rv64, Signed(m, a), Signed(m, b))));
      } else if funct3 == 2 {
        Write(rd, Wrap(m, CMulhsu(cfg.rv64, Signed(m, a), b)));
      } else if funct3 == 3 {
        Write(rd, CMulhu(cfg.rv64, a, b));
      } else if funct3 == 4 {
        Write(rd, Wrap(m, RvDiv(m, Signed(m, a), Signed(m, b))));
      } else if funct3 == 5 {
        Write(rd, Wrap(m, RvDivu(m, a, b)));
      } else if funct3 == 6 {
        Write(rd, Wrap(m, RvRem(m, Signed(m, a), Signed(m, b))));
      } else {
        Write(rd, Wrap(m, RvRemu(m, a, b)));
      }
    }

    /** The base half of the OP case: aluop is funct3 with bit 30 of the word above it. */
    method ExecPlain(aluop: nat, rd: Reg, rs1: Reg, rs2: Reg)
      requires Shaped() && aluop < 16
      modifies regfile
      ensures Shaped()
      ensures var op := PlainCode(aluop);
              regfile[..] == if op == NOALU then old(regfile[..])
                             else old(regfile[..])[rd := AluAt(cfg.Modulus(), cfg.Xlen(), op,
                                                               old(regfile[rs1]), old(regfile[rs2]))]
    {
      hide AluAt, Signed, Wrap, CAdd, CSub, CSll, SraMacro, CAmount, And, Or, Xor, Shr;
      var m, xlen, a, b := cfg.Modulus(), cfg.Xlen(), regfile[rs1], regfile[rs2];
      PlainOk(cfg, a, b);
      AluBound(cfg, PlainCode(aluop), a, b);
      if aluop == 0x0 {
        Write(rd, CAdd(m, a, Signed(m, b)));
      } else if aluop == 0x8 {
        Write(rd, CSub(m, a, Signed(m, b)));
      } else if aluop == 0x1 {
        Write(rd, CSll(m, a, CAmount(b, xlen)));
      } else if aluop == 0x5 {
        Write(rd, Shr(a, CAmount(b, xlen)));
      } else if aluop == 0xD {
        Write(rd, Wrap(m, SraMacro(xlen, a, CAmount(b, xlen))));
      } else if aluop == 0x2 {
        Write(rd, if Signed(m, a) < Signed(m, b) then 1 else 0);
      } else if aluop == 0x3 {
        Write(rd, if a < b then 1 else 0);
      } else if aluop == 0x7 {
        Write(rd, And(a, b));
      } else if aluop == 0x6 {
        Write(rd, Or(a, b));
      } else if aluop == 0x4 {
        Write(rd, Xor(a, b));
      }
    }

    /** What the case of the opcode must establish, c0 being the state before the step. */
    ghost predicate Executed(c0: Semantics.Core, i: Instr, l: Latch, nextPc: nat)
      reads this, rom, ram, regfile
    {
      && Shaped() && Latched(l, i) && nextPc < cfg.Modulus()
      && perf == c0.perf && minstret == c0.minstret && pc == c0.st.pc
      && Settled(nextPc) == Exec(cfg, i, c0.st, Tick(c0.mcycle, HazardCycles(c0.perf, i)), c0.minstret)
      && mcycle == Tick(c0.mcycle, HazardCycles(c0.perf, i) + Count(DataStall(cfg, i, c0.st))
                                   + Count(Taken(cfg, i, c0.st)))
    }

    /** The case is done once the register file holds the result. */
    lemma AluDone(c0: Semantics.Core, i: Instr, l: Latch, nextPc: nat)
      requires i.Alu? || i.AluImm? || i.AluW? || i.AluImmW?
      requires Shaped() && c0.st.regs[0] == 0 && nextPc == Wrap(cfg.Modulus(), pc + 4)
      requires l.rd == i.rd && l.isRegWrite && !l.isMemLoad
      requires perf == c0.perf && minstret == c0.minstret && pc == c0.st.pc
      requires mcycle == Tick(c0.mcycle, LoadUseCycles(c0.perf, i.rs1, Rs2Of(i)))
      requires regfile[..] == if i.op == NOALU then c0.st.regs else c0.st.regs[i.rd := AluOf(cfg, i, c0.st)]
      requires ram[..] == c0.st.ram && rom[..] == c0.st.rom && console == c0.st.console
      ensures Executed(c0, i, l, nextPc)
    {
      hide Exec, HazardCycles, DataStall, Taken, LoadUseCycles, AluOf, Tick, Wrap;
      AluEffect(cfg, i, c0, nextPc);
      ZeroedSet(c0.st.regs, i.rd, AluOf(cfg, i, c0.st));
    }

    method ExecRtype(raw: nat, nextPc: nat) returns (l: Latch)
      requires Valid() && raw < TWO32 && GetOpcode(raw) == 0x33 && nextPc == Wrap(cfg.Modulus(), pc + 4)
      modifies regfile, this`mcycle
      ensures Executed(old(Core()), Decode(cfg, raw), l, nextPc)
    {
      hide Decode, Wrap, Or, AluAt, Tick, CheckFunct7Bit0, AluFunct7Bit5, GetFunct3, GetRs1, GetRs2, GetRd,
        PlainCode, MulDivOp, Executed, LoadUseCycles;
      RegisterDecode(cfg, raw);
      ghost var c0, i := Core(), Decode(cfg, raw);
      var funct3 := GetFunct3(raw);
      l := Latch(GetRs1(raw), GetRs2(raw), GetRd(raw), 0, true, false);
      PerfHazard(l);
      if cfg.mext && CheckFunct7Bit0(raw) {
        ExecMulDiv(funct3, l.rd, l.rs1, l.rs2);
      } else {
        var aluop := Or(AluFunct7Bit5(raw), funct3);
        ExecPlain(aluop, l.rd, l.rs1, l.rs2);
      }
      AluDone(c0, i, l, nextPc);
    }

    // --------------------------------------------------- src/cpu/core.c, OP-IMM

    /** The switch of the OP-IMM case. */
    method ExecPlainImm(funct3: nat, bit5: bool, rd: Reg, rs1: Reg, imm: int)
      requires Shaped() && funct3 < 8 && Fits(imm, 0x1000)
      modifies regfile
      ensures Shaped()
      ensures var m := cfg.Modulus();
              var v := AluAt(m, cfg.Xlen(), ImmOp(funct3, bit5), old(regfile[rs1]), Wrap(m, imm));
              regfile[..] == old(regfile[..])[rd := v]
    {
      hide AluAt, Signed, Wrap, CAdd, CSll, SraMacro, CAmount, And, Or, Xor, Shr;
      var m, xlen, a := cfg.Modulus(), cfg.Xlen(), regfile[rs1];
      var b := Wrap(m, imm);
      PlainOk(cfg, a, b);
      AluBound(cfg, ImmOp(funct3, bit5), a, b);
      SmallImmediate(m, imm);
      if funct3 == 0 {
        Write(rd, CAdd(m, a, imm));
      } else if funct3 == 1 {
        Write(rd, CSll(m, a, CAmount(b, xlen)));
      } else if funct3 == 5 {
        if bit5 {
          Write(rd, Wrap(m, SraMacro(xlen, a, CAmount(b, xlen))));
        } else {
          Write(rd, Shr(a, CAmount(b, xlen)));
        }
      } else if funct3 == 2 {
        Write(rd, if Signed(m, a) < imm then 1 else 0);
      } else if funct3 == 3 {
        Write(rd, if a < b then 1 else 0);
      } else if funct3 == 7 {
        Write(rd, And(a, b));
      } else if funct3 == 6 {
        Write(rd, Or(a, b));
      } else {
        Write(rd, Xor(a, b));
      }
    }

    method ExecImm(raw: nat, nextPc: nat) returns (l: Latch)
      requires Valid() && raw < TWO32 && GetOpcode(raw) == 0x13 && nextPc == Wrap(cfg.Modulus(), pc + 4)
      modifies regfile, this`mcycle
      ensures Executed(old(Core()), Decode(cfg, raw), l, nextPc)
    {
      hide Decode, Wrap, AluAt, Tick, CheckFunct7Bit5, GetFunct3, GetRs1, GetRd, GetSImm12, ImmOp, ImmOperand, ImmI,
        Split, Executed, LoadUseCycles;
      ImmediateDecode(cfg, raw);
      ghost var c0, i := Core(), Decode(cfg, raw);
      ImmOpIsReal(GetFunct3(raw), CheckFunct7Bit5(raw));
      OperandOk(cfg, i.op, regfile[i.rs1], Split(raw));
      l := Latch(GetRs1(raw), 0, GetRd(raw), GetSImm12(raw), true, false);
      PerfHazard(l);
      ExecPlainImm(GetFunct3(raw), CheckFunct7Bit5(raw), l.rd, l.rs1, l.imm);
      AluDone(c0, i, l, nextPc);
    }

    // ----------------------------------------- src/cpu/core.c, OP-32, OP-IMM-32

    method ExecWord(aluop: nat, rd: Reg, rs1: Reg, rs2: Reg)
      requires Shaped() && cfg.rv64 && aluop < 16
      modifies regfile
      ensures Shaped()
      ensures var op := WordOp(PlainCode(aluop));
              regfile[..] == if op == NOALU then old(regfile[..])
                             else old(regfile[..])[rd := AluWAt(op, old(regfile[rs1]), old(regfile[rs2]))]
    {
      hide AluWAt, Wrap, Signed, StoreI32, CSll, SraMacro, And, Shr, I32, U32, RvMul, RvDiv, RvRem, RvDivu, RvRemu;
      var a, b := regfile[rs1], regfile[rs2];
      var n := And(b, SHIFT_MAX_WORD);
      WordOk(a, b);
      if aluop == 0x0 {
        Write(rd, StoreI32(I32(a) + I32(b)));
      } else if aluop == 0x8 {
        Write(rd, StoreI32(I32(a) - I32(b)));
      } else if aluop == 0x1 {
        Write(rd, StoreI32(CSll(TWO32, U32(a), n)));
      } else if aluop == 0x5 {
        Write(rd, StoreI32(Shr(U32(a), n)));
      } else if aluop == 0xD {
        Write(rd, Wrap(TWO64, SraMacro(32, U32(a), n)));
      }
    }

    method ExecMulDivWord(funct3: nat, rd: Reg, rs1: Reg, rs2: Reg)
      requires Shaped() && cfg.rv64 && funct3 < 8
      modifies regfile
      ensures Shaped()
      ensures var op := WordOp(MulDivOp(funct3));
              regfile[..] == if op == NOALU then old(regfile[..])
                             else old(regfile[..])[rd := AluWAt(op, old(regfile[rs1]), old(regfile[rs2]))]
    {
      hide AluWAt, Wrap, Signed, StoreI32, And, RvMul, RvDiv, RvDivu, RvRem, RvRemu, I32, U32, CSll, SraMacro, Shr;
      var a, b := regfile[rs1], regfile[rs2];
      WordOk(a, b);
      if funct3 == 0 {
        Write(rd, StoreI32(RvMul(TWO32, U32(a), U32(b))));
      } else if funct3 == 4 {
        Write(rd, Wrap(TWO64, RvDiv(TWO32, I32(a), I32(b))));
      } else if funct3 == 5 {
        Write(rd, StoreI32(RvDivu(TWO32, U32(a), U32(b))));
      } else if funct3 == 6 {
        Write(rd, Wrap(TWO64, RvRem(TWO32, I32(a), I32(b))));
      } else if funct3 == 7 {
        Write(rd, StoreI32(RvRemu(TWO32, U32(a), U32(b))));
      }
    }

    method ExecRtypeW(raw: nat, nextPc: nat) returns (l: Latch)
      requires Valid() && cfg.rv64 && raw < TWO32 && GetOpcode(raw) == 0x3B
      requires nextPc == Wrap(cfg.Modulus(), pc + 4)
      modifies regfile, this`mcycle
      ensures Executed(old(Core()), Decode(cfg, raw), l, nextPc)
    {
      hide Decode, Wrap, Or, AluWAt, Tick, CheckFunct7Bit0, AluFunct7Bit5, GetFunct3, GetRs1, GetRs2, GetRd,
        PlainCode, MulDivOp, WordOp, Executed, LoadUseCycles;
      RegisterDecode(cfg, raw);
      ghost var c0, i := Core(), Decode(cfg, raw);
      var funct3 := GetFunct3(raw);
      l := Latch(GetRs1(raw), GetRs2(raw), GetRd(raw), 0, true, false);
      PerfHazard(l);
      if cfg.mext && CheckFunct7Bit0(raw) {
        ExecMulDivWord(funct3, l.rd, l.rs1, l.rs2);
      } else {
        var aluop := Or(AluFunct7Bit5(raw), funct3);
        ExecWord(aluop, l.rd, l.rs1, l.rs2);
      }
      AluDone(c0, i, l, nextPc);
    }

    method ExecWordImm(funct3: nat, bit5: bool, rd: Reg, rs1: Reg, imm: int)
      requires Shaped() && cfg.rv64 && funct3 < 8 && Fits(imm, 0x1000)
      modifies regfile
      ensures Shaped()
      ensures var op := WordOp(ImmOp(funct3, bit5));
              regfile[..] == if op == NOALU then old(regfile[..])
                             else old(regfile[..])[rd := AluWAt(op, old(regfile[rs1]), Wrap(TWO64, imm))]
    {
      hide AluWAt, Wrap, Signed, StoreI32, CSll, SraMacro, And, Shr, I32, U32, RvMul, RvDiv, RvRem, RvDivu, RvRemu;
      var a, b := regfile[rs1], Wrap(TWO64, imm);
      var n := And(b, SHIFT_MAX_WORD);
      WordOk(a, b);
      WordImmediate(imm);
      if funct3 == 0 {
        Write(rd, StoreI32(I32(a) + imm));
      } else if funct3 == 1 {
        Write(rd, StoreI32(CSll(TWO32, U32(a), n)));
      } else if funct3 == 5 {
        if bit5 {
          Write(rd, Wrap(TWO64, SraMacro(32, U32(a), n)));
        } else {
          Write(rd, StoreI32(Shr(U32(a), n)));
        }
      }
    }

    method ExecImmW(raw: nat, nextPc: nat) returns (l: Latch)
      requires Valid() && cfg.rv64 && raw < TWO32 && GetOpcode(raw) == 0x1B
      requires nextPc == Wrap(cfg.Modulus(), pc + 4)
      modifies regfile, this`mcycle
      ensures Executed(old(Core()), Decode(cfg, raw), l, nextPc)
    {
      hide Decode, Wrap, AluWAt, Tick, CheckFunct7Bit5, GetFunct3, GetRs1, GetRd, GetSImm12, ImmOp, WordOp, ImmOperand,
        ImmI, Split, Executed, LoadUseCycles;
      ImmediateDecode(cfg, raw);
      ghost var c0, i := Core(), Decode(cfg, raw);
      OperandWOk(i.op, regfile[i.rs1], Split(raw));
      l := Latch(GetRs1(raw), 0, GetRd(raw), GetSImm12(raw), true, false);
      PerfHazard(l);
      ExecWordImm(GetFunct3(raw), CheckFunct7Bit5(raw), l.rd, l.rs1, l.imm);
      AluDone(c0, i, l, nextPc);
    }

    // ------------------------------------------------ src/cpu/core.c, LOAD, STORE

    method ExecLoad(raw: nat, nextPc: nat) returns (l: Latch)
      requires Valid() && raw < TWO32 && GetOpcode(raw) == 0x03 && nextPc == Wrap(cfg.Modulus(), pc + 4)
      modifies regfile, this`mcycle
      ensures Executed(old(Core()), Decode(cfg, raw), l, nextPc)
    {
      hide Decode, Wrap, Tick, GetFunct3, GetRs1, GetRd, GetSImm12, LoadOp, Extend, Peek, LoadUseCycles, Executed;
      ImmediateDecode(cfg, raw);
      ghost var c0, i := Core(), Decode(cfg, raw);
      l := Latch(GetRs1(raw), 0, GetRd(raw), GetSImm12(raw), true, true);
      PerfHazard(l);
      var addr := Wrap(cfg.Modulus(), regfile[l.rs1] + l.imm);
      ghost var before := Settled(pc);
      var val := BusRead(addr, GetFunct3(raw), regfile[l.rd]);
      PeekSame(before, c0.st, addr, Bytes(i.mem));
      ExtendBound(cfg, i.mem, c0.st, addr);
      Write(l.rd, val);
      LoadDone(c0, i, l, nextPc, addr, val);
    }

    lemma LoadDone(c0: Semantics.Core, i: Instr, l: Latch, nextPc: nat, addr: nat, val: nat)
      requires i.Load? && addr == Address(cfg, c0.st, i.rs1, i.imm)
      requires Shaped() && c0.st.regs[0] == 0 && nextPc == Wrap(cfg.Modulus(), pc + 4)
      requires l.rd == i.rd && l.isRegWrite && l.isMemLoad
      requires perf == c0.perf && minstret == c0.minstret && pc == c0.st.pc
      requires ram[..] == c0.st.ram && rom[..] == c0.st.rom && console == c0.st.console
      requires regfile[..] == c0.st.regs[i.rd := val]
      requires var hz := LoadUseCycles(c0.perf, i.rs1, 0);
               if i.mem == NOMEM || !Mapped(addr, Bytes(i.mem))
               then val == c0.st.regs[i.rd] && mcycle == Tick(c0.mcycle, hz)
               else
                 && val == Extend(cfg.Modulus(), i.mem, Peek(c0.st, addr, Bytes(i.mem)))
                 && mcycle == Tick(Tick(c0.mcycle, hz), Count(Misaligned(addr, Bytes(i.mem))))
      ensures Executed(c0, i, l, nextPc)
    {
      hide Tick, Wrap, Extend, Peek, LoadUseCycles;
      ZeroedSet(c0.st.regs, i.rd, val);
      PeekSame(c0.st, c0.st.(pc := nextPc), addr, Bytes(i.mem));
      TickTick(c0.mcycle, LoadUseCycles(c0.perf, i.rs1, 0), Count(Misaligned(addr, Bytes(i.mem))));
    }

    method ExecStore(raw: nat, nextPc: nat) returns (l: Latch)
      requires Valid() && raw < TWO32 && GetOpcode(raw) == 0x23 && nextPc == Wrap(cfg.Modulus(), pc + 4)
      modifies ram, this`mcycle
      ensures Executed(old(Core()), Decode(cfg, raw), l, nextPc)
    {
      hide Decode, Wrap, Tick, GetFunct3, GetRs1, GetRs2, GetStoreImm, StoreOp, WriteLE, LoadUseCycles, Executed;
      StoreBranchDecode(cfg, raw);
      ghost var c0, i := Core(), Decode(cfg, raw);
      l := Latch(GetRs1(raw), GetRs2(raw), 0, GetStoreImm(raw), false, false);
      PerfHazard(l);
      var addr := Wrap(cfg.Modulus(), regfile[l.rs1] + l.imm);
      BusWrite(addr, GetFunct3(raw), regfile[l.rs2]);
      StoreDone(c0, i, l, nextPc, addr);
    }

    lemma StoreDone(c0: Semantics.Core, i: Instr, l: Latch, nextPc: nat, addr: nat)
      requires i.Store? && addr == Address(cfg, c0.st, i.rs1, i.imm)
      requires Shaped() && c0.st.regs[0] == 0 && nextPc == Wrap(cfg.Modulus(), pc + 4)
      requires l.rd == 0 && !l.isRegWrite && !l.isMemLoad
      requires perf == c0.perf && minstret == c0.minstret && pc == c0.st.pc
      requires regfile[..] == c0.st.regs && rom[..] == c0.st.rom && console == c0.st.console
      requires var hz := LoadUseCycles(c0.perf, i.rs1, i.rs2);
               if i.mem == NOMEM || !InRam(addr, Bytes(i.mem))
               then ram[..] == c0.st.ram && mcycle == Tick(c0.mcycle, hz)
               else
                 && ram[..] == WriteLE(c0.st.ram, addr - RAM_START, c0.st.regs[i.rs2], Bytes(i.mem))
                 && mcycle == Tick(Tick(c0.mcycle, hz), Count(Misaligned(addr, Bytes(i.mem))))
      ensures Executed(c0, i, l, nextPc)
    {
      hide Tick, Wrap, WriteLE, LoadUseCycles;
      assert Zeroed(c0.st.regs) == c0.st.regs;
      TickTick(c0.mcycle, LoadUseCycles(c0.perf, i.rs1, i.rs2), Count(Misaligned(addr, Bytes(i.mem))));
    }

    // --------------------------------------------- src/cpu/core.c, control transfer

    method ExecBranch(raw: nat, next: nat) returns (l: Latch, nextPc: nat)
      requires Valid() && raw < TWO32 && GetOpcode(raw) == 0x63 && next == Wrap(cfg.Modulus(), pc + 4)
      modifies this`mcycle
      ensures Executed(old(Core()), Decode(cfg, raw), l, nextPc)
    {
      hide Decode, Wrap, Signed, Tick, GetFunct3, GetRs1, GetRs2, GetBranchImm, BranchUseCycles, Executed;
      StoreBranchDecode(cfg, raw);
      ghost var c0, i := Core(), Decode(cfg, raw);
      var m, kind := cfg.Modulus(), GetFunct3(raw);
      l := Latch(GetRs1(raw), GetRs2(raw), 0, GetBranchImm(raw), false, false);
      nextPc := next;
      PerfBranchHazard(l);
      var a, b := regfile[l.rs1], regfile[l.rs2];
      if kind == 0 {
        if a == b {
          PerfBranchTaken();
          nextPc := Wrap(m, pc + l.imm);
        }
      } else if kind == 1 {
        if a != b {
          PerfBranchTaken();
          nextPc := Wrap(m, pc + l.imm);
        }
      } else if kind == 4 {
        if Signed(m, a) < Signed(m, b) {
          PerfBranchTaken();
          nextPc := Wrap(m, pc + l.imm);
        }
      } else if kind == 5 {
        if Signed(m, a) >= Signed(m, b) {
          PerfBranchTaken();
          nextPc := Wrap(m, pc + l.imm);
        }
      } else if kind == 6 {
        if a < b {
          PerfBranchTaken();
          nextPc := Wrap(m, pc + l.imm);
        }
      } else if kind == 7 {
        if a >= b {
          PerfBranchTaken();
          nextPc := Wrap(m, pc + l.imm);
        }
      }
      BranchDone(c0, i, l, nextPc);
    }

    lemma BranchDone(c0: Semantics.Core, i: Instr, l: Latch, nextPc: nat)
      requires i.Branch? && Shaped() && c0.st.regs[0] == 0
      requires l.rd == 0 && !l.isRegWrite && !l.isMemLoad
      requires perf == c0.perf && minstret == c0.minstret && pc == c0.st.pc
      requires regfile[..] == c0.st.regs && ram[..] == c0.st.ram && rom[..] == c0.st.rom && console == c0.st.console
      requires var hz := BranchUseCycles(c0.perf, i.rs1, i.rs2);
               if Taken(cfg, i, c0.st) then
                 nextPc == Wrap(cfg.Modulus(), pc + i.imm) && mcycle == Tick(Tick(c0.mcycle, hz), 1)
               else nextPc == Wrap(cfg.Modulus(), pc + 4) && mcycle == Tick(c0.mcycle, hz)
      ensures Executed(c0, i, l, nextPc)
    {
      hide Tick, Wrap, Taken, BranchUseCycles;
      assert Zeroed(c0.st.regs) == c0.st.regs;
      TickTick(c0.mcycle, BranchUseCycles(c0.perf, i.rs1, i.rs2), 1);
    }

    /** AUIPC, LUI and JAL: no operands, so no hazard. */
    method ExecUpper(raw: nat, next: nat) returns (l: Latch, nextPc: nat)
      requires Valid() && raw < TWO32 && GetOpcode(raw) in {0x17, 0x37, 0x6F} && next == Wrap(cfg.Modulus(), pc + 4)
      modifies regfile, this`mcycle
      ensures Executed(old(Core()), Decode(cfg, raw), l, nextPc)
    {
      hide Decode, Wrap, Tick, GetRd, GetSImm20, GetJalImm;
      UpperDecode(cfg, raw);
      ghost var r0 := regfile[..];
      TickZero(mcycle);
      var m := cfg.Modulus();
      nextPc := next;
      if GetOpcode(raw) == 0x17 {
        l := Latch(0, 0, GetRd(raw), GetSImm20(raw), true, false);
        Write(l.rd, Wrap(m, pc + l.imm));
        ZeroedSet(r0, l.rd, Wrap(m, pc + l.imm));
      } else if GetOpcode(raw) == 0x37 {
        l := Latch(0, 0, GetRd(raw), GetSImm20(raw), true, false);
        Write(l.rd, Wrap(m, l.imm));
        ZeroedSet(r0, l.rd, Wrap(m, l.imm));
      } else {
        l := Latch(0, 0, GetRd(raw), GetJalImm(raw), true, false);
        PerfBranchTaken();
        nextPc := Wrap(m, pc + l.imm);
        Write(l.rd, Wrap(m, pc + 4));
        ZeroedSet(r0, l.rd, Wrap(m, pc + 4));
      }
    }

    /** The target is computed before the link register is written, so rd may be rs1. */
    method ExecJalr(raw: nat) returns (l: Latch, nextPc: nat)
      requires Valid() && raw < TWO32 && GetOpcode(raw) == 0x67
      modifies regfile, this`mcycle
      ensures Executed(old(Core()), Decode(cfg, raw), l, nextPc)
    {
      hide Decode, Wrap, Tick, And, GetRs1, GetRd, GetSImm12, BranchUseCycles;
      ImmediateDecode(cfg, raw);
      ghost var c0 := Core();
      var m := cfg.Modulus();
      l := Latch(GetRs1(raw), 0, GetRd(raw), GetSImm12(raw), true, false);
      PerfBranchHazard(l);
      PerfBranchTaken();
      var target := Wrap(m, regfile[l.rs1] + l.imm);
      nextPc := And(target, m - 2);
      EvenTarget(cfg, target);
      Write(l.rd, Wrap(m, pc + 4));
      ZeroedSet(c0.st.regs, l.rd, Wrap(m, pc + 4));
      TickTick(c0.mcycle, BranchUseCycles(c0.perf, l.rs1, 0), 1);
    }

    // ------------------------------------------------- inc/csr.h, and the SYS case

    method ReadCsrReg(csr: nat) returns (val: nat)
      requires Shaped()
      ensures val == ReadCsr(cfg, csr, mcycle, minstret) && val < cfg.Modulus()
    {
      var m := cfg.Modulus();
      if csr == 0xB00 || csr == 0xC00 {
        val := mcycle % m;
      } else if csr == 0xB02 || csr == 0xC02 {
        val := minstret % m;
      } else if !cfg.rv64 && (csr == 0xB80 || csr == 0xC80) {
        val := mcycle / TWO32 % m;
      } else if !cfg.rv64 && (csr == 0xB82 || csr == 0xC82) {
        val := minstret / TWO32 % m;
      } else {
        val := 0;
      }
    }

    method ExecSys(raw: nat, nextPc: nat) returns (l: Latch, cont: bool)
      requires Valid() && raw < TWO32 && GetOpcode(raw) == 0x73 && nextPc == Wrap(cfg.Modulus(), pc + 4)
      modifies regfile, this`mcycle, this`console
      ensures Executed(old(Core()), Decode(cfg, raw), l, nextPc)
      ensures cont == !Stops(Decode(cfg, raw), old(Core()).st)
    {
      hide Decode, Wrap, Tick, And, GetFunct3, GetRs1, GetRd, GetImm12, ReadCsr, LoadUseCycles, Executed;
      SystemDecode(cfg, raw);
      ghost var c0, i := Core(), Decode(cfg, raw);
      TickZero(mcycle);
      cont := true;
      var op := GetFunct3(raw);
      ImmediateForm(op);
      var isImm := And(op, 4) != 0;
      l := Latch(GetRs1(raw), 0, GetRd(raw), GetImm12(raw), false, false);
      if !isImm {
        PerfHazard(l);
      }
      if op == 0 {
        if l.imm == 1 {
          cont := false;
        } else {
          if regfile[10] == 10 {
            cont := false;
          } else if regfile[10] == 11 {
            console := console + [regfile[11] % 256];
          }
        }
        EnvDone(c0, i, l, nextPc);
      } else {
        ghost var v := ReadCsr(cfg, l.imm, mcycle, minstret);
        ZeroedSet(c0.st.regs, l.rd, v);
        if op == 1 || op == 5 {
          if l.rd != 0 {
            var csrval := ReadCsrReg(l.imm);
            Write(l.rd, csrval);
          }
        } else if op == 2 || op == 6 {
          var csrval := ReadCsrReg(l.imm);
          Write(l.rd, csrval);
        } else if op == 3 || op == 7 {
          var csrval := ReadCsrReg(l.imm);
          Write(l.rd, csrval);
        }
        CsrDone(c0, i, l, nextPc);
      }
    }

    lemma EnvDone(c0: Semantics.Core, i: Instr, l: Latch, nextPc: nat)
      requires i.Env? && Shaped() && c0.st.regs[0] == 0 && nextPc == Wrap(cfg.Modulus(), pc + 4)
      requires l.rd == i.rd && !l.isRegWrite && !l.isMemLoad
      requires perf == c0.perf && minstret == c0.minstret && pc == c0.st.pc
      requires regfile[..] == c0.st.regs && ram[..] == c0.st.ram && rom[..] == c0.st.rom
      requires console == if i.code != 1 && c0.st.regs[10] == 11 then c0.st.console + [c0.st.regs[11] % 256]
                          else c0.st.console
      requires mcycle == Tick(c0.mcycle, LoadUseCycles(c0.perf, i.rs1, 0))
      ensures Executed(c0, i, l, nextPc)
    {
      hide Tick, Wrap, LoadUseCycles;
      assert Zeroed(c0.st.regs) == c0.st.regs;
    }

    lemma CsrDone(c0: Semantics.Core, i: Instr, l: Latch, nextPc: nat)
      requires i.Csr? && Shaped() && c0.st.regs[0] == 0 && nextPc == Wrap(cfg.Modulus(), pc + 4)
      requires l.rd == i.rd && !l.isRegWrite && !l.isMemLoad
      requires perf == c0.perf && minstret == c0.minstret && pc == c0.st.pc && c0.mcycle < TWO64
      requires ram[..] == c0.st.ram && rom[..] == c0.st.rom && console == c0.st.console
      requires Zeroed(regfile[..]) == if i.funct3 == 4 || i.rd == 0 then c0.st.regs
                                      else c0.st.regs[i.rd := ReadCsr(cfg, i.csr, mcycle, minstret)]
      requires mcycle == if i.funct3 >= 4 then c0.mcycle else Tick(c0.mcycle, LoadUseCycles(c0.perf, i.rs1, 0))
      ensures Executed(c0, i, l, nextPc)
    {
      hide Tick, Wrap, LoadUseCycles, ReadCsr;
      TickZero(c0.mcycle);
    }

    /** FENCE and unknown opcodes leave the latch empty. */
    lemma NothingDone(c0: Semantics.Core, i: Instr, nextPc: nat)
      requires (i.Fence? || i.Unknown?) && Valid() && c0 == Core() && nextPc == Wrap(cfg.Modulus(), pc + 4)
      ensures Executed(c0, i, EMPTY, nextPc)
    {
      hide Tick, Wrap;
      assert Zeroed(c0.st.regs) == c0.st.regs;
      TickZero(mcycle);
    }

    // --------------------------------------------------------- the whole step

    method ProcessInstr(raw: nat) returns (cont: bool)
      requires Valid() && raw < TWO32
      modifies this, ram, regfile
      ensures Valid()
      ensures Core() == StepInstr(cfg, old(Core()), Decode(cfg, raw))
      ensures cont == !Stops(Decode(cfg, raw), old(Core()).st)
    {
      hide Decode, Wrap, Tick, GetOpcode, Executed;
      cont := true;
      var nextPc := Wrap(cfg.Modulus(), pc + 4);
      var opcode := GetOpcode(raw);
      var l := EMPTY;
      ghost var c0, i := Core(), Decode(cfg, raw);
      OtherDecode(cfg, raw);
      if opcode == 0x33 {
        l := ExecRtype(raw, nextPc);
      } else if opcode == 0x13 {
        l := ExecImm(raw, nextPc);
      } else if cfg.rv64 && opcode == 0x3B {
        l := ExecRtypeW(raw, nextPc);
      } else if cfg.rv64 && opcode == 0x1B {
        l := ExecImmW(raw, nextPc);
      } else if opcode == 0x03 {
        l := ExecLoad(raw, nextPc);
      } else if opcode == 0x23 {
        l := ExecStore(raw, nextPc);
      } else if opcode == 0x63 {
        l, nextPc := ExecBranch(raw, nextPc);
      } else if opcode == 0x0F {
        NothingDone(c0, i, nextPc);
      } else if opcode == 0x17 || opcode == 0x37 || opcode == 0x6F {
        l, nextPc := ExecUpper(raw, nextPc);
      } else if opcode == 0x67 {
        l, nextPc := ExecJalr(raw);
      } else if opcode == 0x73 {
        l, cont := ExecSys(raw, nextPc);
      } else {
        NothingDone(c0, i, nextPc);
      }
      FinishStep(c0, i, l, nextPc);
    }

    method FinishStep(ghost c0: Semantics.Core, ghost i: Instr, l: Latch, nextPc: nat)
      requires Executed(c0, i, l, nextPc)
      modifies this, regfile
      ensures Valid() && Core() == StepInstr(cfg, c0, i)
    {
      hide Tick, Exec, HazardCycles, DataStall, Taken;
      TickTick(c0.mcycle, HazardCycles(c0.perf, i) + Count(DataStall(cfg, i, c0.st)) + Count(Taken(cfg, i, c0.st)), 1);
      PerfCycle(l);
      pc := nextPc;
      regfile[0] := 0;
    }

    // --------------------------------------------------------------- src/main.c

    /** Power-on with a ROM image loaded. */
    constructor (cfg: Config, image: Rom)
      ensures this.cfg == cfg && Valid() && Core() == Reset(image)
      ensures fresh(rom) && fresh(ram) && fresh(regfile)
      ensures pc == 0 && minstret == 0 && console == [] && rom[..] == image
      ensures (forall k :: 0 <= k < 32 ==> regfile[k] == 0) && forall k :: 0 <= k < RAM_SIZE ==> ram[k] == 0
    {
      this.cfg := cfg;
      rom := new Byte[ROM_SIZE](k requires 0 <= k < ROM_SIZE => image[k]);
      ram := new Byte[RAM_SIZE](k => 0);
      regfile := new nat[32](k => 0);
      pc, perf, mcycle, minstret, console := 0, FRESH, 4, 0, [];
    }

    /** `bus_read(cpu.pc, MEM_W, &bus_val)`, cut to 32 bits. */
    method Fetch() returns (instr: nat)
      requires Valid()
      modifies this`mcycle
      ensures Valid() && Core() == Fetched(old(Core())) && instr == FetchWord(old(Core()).st)
    {
      hide Extend, Peek, Tick, FetchWord;
      ghost var c, s := Core(), Settled(pc);
      var busVal := BusRead(pc, 2, 0);
      instr := busVal % TWO32;
      FetchedWord(cfg, c);
      PeekSame(s, c.st, pc, 4);
      TickZero(c.mcycle);
    }

    /** The fetch/execute loop; the result is the exit code of main. */
    method Run() returns (code: nat)
      requires Valid()
      modifies this, ram, regfile
      ensures Valid()
      ensures Core() == RunLoop(cfg, old(Core())).0
      ensures code == if RunLoop(cfg, old(Core())).1 == ZeroWord then 1 else 0
    {
      hide Decode, Step, RunLoop, Stops, StepInstr, Tick, Fetched, FetchWord, Peek, Extend, Current;
      ghost var c0 := Core();
      var looping := true;
      while looping && mcycle < MAX_CYCLES
        invariant Valid()
        invariant looping ==> RunLoop(cfg, c0) == RunLoop(cfg, Core())
        invariant !looping ==> RunLoop(cfg, c0) == (Core(), Exited)
        decreases looping, MAX_CYCLES - mcycle
      {
        ghost var c := Core();
        LoopStep(cfg, c);
        var instr := Fetch();
        if instr == 0 {
          return 1;
        }
        looping := ProcessInstr(instr);
      }
      if looping {
        LoopLimit(cfg, Core());
      }
      code := 0;
    }
  }
}

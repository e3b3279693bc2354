/** The field and immediate extraction macros of inc/riscv.h, kept as masks, shifts and
    joins of 32-bit words, and the fields of the encoding that they recover. */
module Macros {
  import opened Words
  import opened Arch
  import opened Isa

  function Shl32(x: nat, n: nat): nat {
    Wrap(TWO32, x * Pow2(n))
  }

  function GetOpcode(w: nat): nat { And(w % 256, 0x7F) }
  function GetRs1(w: nat): nat { Shr(And(w, 0xF8000), 15) % 256 }
  function GetRs2(w: nat): nat { Shr(And(w, 0x1F0_0000), 20) % 256 }
  function GetRd(w: nat): nat { Shr(And(w, 0xF80), 7) % 256 }
  function GetFunct3(w: nat): nat { Shr(And(w, 0x7000), 12) % 256 }
  predicate CheckFunct7Bit0(w: nat) { And(w, 0x200_0000) != 0 }
  predicate CheckFunct7Bit5(w: nat) { And(w, 0x4000_0000) != 0 }
  function AluFunct7Bit5(w: nat): nat { Shr(And(w, 0x4000_0000), 27) % 256 }
  function GetImm12(w: nat): nat { Shr(And(w, 0xFFF0_0000), 20) }
  function GetSImm12(w: nat): int { SraMacro(32, And(w, 0xFFF0_0000), 20) }
  function GetSImm20(w: nat): int { Signed(TWO32, And(w, 0xFFFF_F000)) }
  function GetStoreImm(w: nat): int {
    SraMacro(32, Or(And(w, 0xFE00_0000), Shl32(And(w, 0xF80), 13)), 20)
  }
  function GetBranchImm(w: nat): int {
    SraMacro(32, Or(Or(Or(And(w, 0x8000_0000), Shl32(And(w, 0x80), 23)), Shr(And(w, 0x7E00_0000), 1)),
                    Shl32(And(w, 0xF00), 12)), 19)
  }
  function GetJalImm(w: nat): int {
    SraMacro(32, Or(Or(Or(And(w, 0x8000_0000), Shl32(And(w, 0xF_F000), 11)), Shl32(And(w, 0x10_0000), 2)),
                    Shr(And(w, 0x7FE0_0000), 9)), 11)
  }

  /** Masking a word whose n-bit field at bit k is f; pn and pk are the powers of two. */
  lemma Mask(w: nat, mask: nat, n: nat, k: nat, pn: int, pk: int, q: nat, f: nat, r: nat)
    requires pn == Pow2(n) && pk == Pow2(k) && mask == (pn - 1) * pk
    requires w == (q * pn + f) * pk + r && f < pn && r < pk
    ensures And(w, mask) == f * pk
  {
    AndMask(w, mask, n, k, q, f, r);
  }

  lemma ShiftRight(x: nat, n: nat, p: int, q: nat)
    requires p == Pow2(n) && x == q * p
    ensures Shr(x, n) == q
  {
    ShrIsQuotient(x, n);
    DivModUnique(x, p, q, 0);
  }

  lemma OpcodeField(w: nat, f: Fields)
    requires f.InRange() && w == Join(f)
    ensures GetOpcode(w) == f.op
  {
    hide And, Pow2;
    var up := f.rd + 32 * (f.f3 + 8 * (f.rs1 + 32 * (f.rs2 + 32 * f.f7)));
    assert w == up * 128 + f.op;
    assert w % 256 == up % 2 * 128 + f.op by {
      DivModUnique(w, 256, up / 2, up % 2 * 128 + f.op);
    }
    Pow2Values();
    Mask(w % 256, 0x7F, 7, 0, 128, 1, up % 2, f.op, 0);
  }

  lemma RdField(w: nat, f: Fields)
    requires f.InRange() && w == Join(f)
    ensures GetRd(w) == f.rd
  {
    hide And, Shr;
    Pow2Values();
    Mask(w, 0xF80, 5, 7, 32, 128, f.f3 + 8 * (f.rs1 + 32 * (f.rs2 + 32 * f.f7)), f.rd, f.op);
    ShiftRight(And(w, 0xF80), 7, 128, f.rd);
  }

  lemma Funct3Field(w: nat, f: Fields)
    requires f.InRange() && w == Join(f)
    ensures GetFunct3(w) == f.f3
  {
    hide And, Shr;
    Pow2Values();
    Mask(w, 0x7000, 3, 12, 8, 0x1000, f.rs1 + 32 * (f.rs2 + 32 * f.f7), f.f3, f.op + 128 * f.rd);
    ShiftRight(And(w, 0x7000), 12, 0x1000, f.f3);
  }

  lemma Rs1Field(w: nat, f: Fields)
    requires f.InRange() && w == Join(f)
    ensures GetRs1(w) == f.rs1
  {
    hide And, Shr;
    Pow2Values();
    Mask(w, 0xF8000, 5, 15, 32, 0x8000, f.rs2 + 32 * f.f7, f.rs1, f.op + 128 * (f.rd + 32 * f.f3));
    ShiftRight(And(w, 0xF8000), 15, 0x8000, f.rs1);
  }

  /** The part of a word below its rs2 field. */
  function Low20(f: Fields): nat {
    f.op + 128 * (f.rd + 32 * (f.f3 + 8 * f.rs1))
  }

  lemma Rs2Field(w: nat, f: Fields)
    requires f.InRange() && w == Join(f)
    ensures GetRs2(w) == f.rs2
  {
    hide And, Shr;
    Pow2Values();
    Mask(w, 0x1F0_0000, 5, 20, 32, 0x10_0000, f.f7, f.rs2, Low20(f));
    ShiftRight(And(w, 0x1F0_0000), 20, 0x10_0000, f.rs2);
  }

  /** The register and function code macros give the fields of the word. */
  lemma PlainFields(w: nat)
    requires w < TWO32
    ensures var f := Split(w);
            && GetOpcode(w) == f.op && GetRd(w) == f.rd && GetFunct3(w) == f.f3
            && GetRs1(w) == f.rs1 && GetRs2(w) == f.rs2
  {
    JoinSplit(w);
    OpcodeField(w, Split(w));
    RdField(w, Split(w));
    Funct3Field(w, Split(w));
    Rs1Field(w, Split(w));
    Rs2Field(w, Split(w));
  }

  lemma Bit25(w: nat, f: Fields)
    requires f.InRange() && w == Join(f)
    ensures And(w, 0x200_0000) == f.f7 % 2 * 0x200_0000
  {
    hide And, Shr;
    Pow2Values();
    Mask(w, 0x200_0000, 1, 25, 2, 0x200_0000, f.f7 / 2, f.f7 % 2, Low20(f) + 0x10_0000 * f.rs2);
  }

  lemma BitOfParts(w: nat, low: nat, top: nat, bit: nat, mid: nat)
    requires w == low + 0x200_0000 * (64 * top + 32 * bit + mid) && low < 0x200_0000 && bit < 2 && mid < 32
    ensures And(w, 0x4000_0000) == bit * 0x4000_0000
  {
    hide And, Shr;
    Pow2Values();
    Mask(w, 0x4000_0000, 1, 30, 2, 0x4000_0000, top, bit, low + 0x200_0000 * mid);
  }

  lemma Bit30(w: nat, f: Fields)
    requires f.InRange() && w == Join(f)
    ensures And(w, 0x4000_0000) == f.f7 / 32 % 2 * 0x4000_0000
  {
    hide And, Shr;
    assert f.f7 == f.f7 / 64 * 64 + f.f7 / 32 % 2 * 32 + f.f7 % 32;
    BitOfParts(w, Low20(f) + 0x10_0000 * f.rs2, f.f7 / 64, f.f7 / 32 % 2, f.f7 % 32);
  }

  lemma TopTwelve(w: nat, f: Fields)
    requires f.InRange() && w == Join(f)
    ensures And(w, 0xFFF0_0000) == (f.rs2 + 32 * f.f7) * 0x10_0000
  {
    hide And, Shr;
    Pow2Values();
    Mask(w, 0xFFF0_0000, 12, 20, 0x1000, 0x10_0000, 0, f.rs2 + 32 * f.f7, Low20(f));
  }

  /** The macros that test single bits of funct7 and take the CSR number. */
  lemma Funct7Bits(w: nat)
    requires w < TWO32
    ensures var f := Split(w);
            && (CheckFunct7Bit0(w) <==> f.f7 % 2 == 1)
            && (CheckFunct7Bit5(w) <==> f.f7 / 32 % 2 == 1)
            && AluFunct7Bit5(w) == f.f7 / 32 % 2 * 8
            && GetImm12(w) == f.rs2 + 32 * f.f7
  {
    hide And, Shr;
    var f := Split(w);
    JoinSplit(w);
    Bit25(w, f);
    Bit30(w, f);
    TopTwelve(w, f);
    Pow2Values();
    ShiftRight(And(w, 0x4000_0000), 27, 0x800_0000, f.f7 / 32 % 2 * 8);
    ShiftRight(And(w, 0xFFF0_0000), 20, 0x10_0000, f.rs2 + 32 * f.f7);
  }

  lemma TopField(v: nat, hi: nat, p: int, t: int)
    requires 0 < p && t * p == TWO32 && v == hi * p && hi < t
    ensures v < TWO32 && Signed(TWO32, v) / p == Signed(t, hi)
  {
    MulLeft(hi + 1, t, p);
    assert (hi + 1) * p == v + p;
    assert (2 * hi) * p == 2 * v;
    if 2 * hi < t {
      MulLeft(2 * hi + 1, t, p);
      assert (2 * hi + 1) * p == 2 * v + p;
      DivModUnique(v, p, hi, 0);
    } else {
      MulLeft(t, 2 * hi, p);
      assert (hi - t) * p == v - TWO32;
      DivModUnique(v - TWO32, p, hi - t, 0);
    }
  }

  /** Sign-extending a field that fills the top of the word. */
  lemma SraField(v: nat, hi: nat, sh: nat, p: int, t: int)
    requires sh < 32 && p == Pow2(sh) && t * p == TWO32 && v == hi * p && hi < t
    ensures SraMacro(32, v, sh) == Signed(t, hi)
  {
    TopField(v, hi, p, t);
    Pow2Values();
    SraIsFloor(32, v, sh);
  }

  lemma ShiftLeft(x: nat, n: nat, p: int, y: nat)
    requires p == Pow2(n) && y == x * p && y < TWO32
    ensures Shl32(x, n) == y
  {
    WrapSmall(TWO32, y);
  }

  lemma SImm12Field(w: nat, f: Fields)
    requires f.InRange() && w == Join(f)
    ensures GetSImm12(w) == ImmI(f)
  {
    hide And, Shr;
    TopTwelve(w, f);
    Pow2Values();
    SraField(And(w, 0xFFF0_0000), f.rs2 + 32 * f.f7, 20, 0x10_0000, 0x1000);
  }

  lemma SImm20Field(w: nat, f: Fields)
    requires f.InRange() && w == Join(f)
    ensures GetSImm20(w) == ImmU(f)
  {
    hide And, Shr;
    Pow2Values();
    Mask(w, 0xFFFF_F000, 20, 12, 0x10_0000, 0x1000, 0, f.f3 + 8 * f.rs1 + 0x100 * f.rs2 + 0x2000 * f.f7,
         f.op + 128 * f.rd);
  }

  lemma StoreImmField(w: nat, f: Fields)
    requires f.InRange() && w == Join(f)
    ensures GetStoreImm(w) == ImmS(f)
  {
    hide And, Shr, Or;
    Pow2Values();
    var hi, lo := And(w, 0xFE00_0000), And(w, 0xF80);
    Mask(w, 0xFE00_0000, 7, 25, 128, 0x200_0000, 0, f.f7, Low20(f) + 0x10_0000 * f.rs2);
    Mask(w, 0xF80, 5, 7, 32, 128, f.f3 + 8 * (f.rs1 + 32 * (f.rs2 + 32 * f.f7)), f.rd, f.op);
    ShiftLeft(lo, 13, 0x2000, f.rd * 0x10_0000);
    OrDisjoint(hi, f.f7, f.rd * 0x10_0000, 25);
    SraField(Or(hi, Shl32(lo, 13)), f.rd + 32 * f.f7, 20, 0x10_0000, 0x1000);
  }

  /** The top bit of the word, which every signed immediate takes. */
  lemma Bit31(w: nat, f: Fields)
    requires f.InRange() && w == Join(f)
    ensures And(w, 0x8000_0000) == f.f7 / 64 * 0x8000_0000
  {
    hide And, Shr;
    Pow2Values();
    Mask(w, 0x8000_0000, 1, 31, 2, 0x8000_0000, 0, f.f7 / 64,
         Low20(f) + 0x10_0000 * f.rs2 + 0x200_0000 * (f.f7 % 64));
  }

  /** The slices of the word that a branch immediate is made of. */
  lemma BranchSlices(w: nat, f: Fields)
    requires f.InRange() && w == Join(f)
    ensures Shl32(And(w, 0x80), 23) == f.rd % 2 * 0x4000_0000
    ensures Shr(And(w, 0x7E00_0000), 1) == f.f7 % 64 * 0x100_0000
    ensures Shl32(And(w, 0xF00), 12) == f.rd / 2 * 0x10_0000
  {
    hide And, Shr;
    Pow2Values();
    var up := f.f3 + 8 * (f.rs1 + 32 * (f.rs2 + 32 * f.f7));
    Mask(w, 0x80, 1, 7, 2, 128, 16 * up + f.rd / 2, f.rd % 2, f.op);
    ShiftLeft(And(w, 0x80), 23, 0x80_0000, f.rd % 2 * 0x4000_0000);
    Mask(w, 0x7E00_0000, 6, 25, 64, 0x200_0000, f.f7 / 64, f.f7 % 64, Low20(f) + 0x10_0000 * f.rs2);
    ShiftRight(And(w, 0x7E00_0000), 1, 2, f.f7 % 64 * 0x100_0000);
    Mask(w, 0xF00, 4, 8, 16, 0x100, up, f.rd / 2, f.op + 128 * (f.rd % 2));
    ShiftLeft(And(w, 0xF00), 12, 0x1000, f.rd / 2 * 0x10_0000);
  }

  lemma OrField(hi: nat, lo: nat, a: nat, k: nat, p: int)
    requires p == Pow2(k) && hi == a * p && lo < p
    ensures Or(hi, lo) == hi + lo
  {
    OrDisjoint(hi, a, lo, k);
  }

  lemma BranchJoin(x: nat, y: nat, z: nat, u: nat, s: nat, b: nat, g: nat, r: nat)
    requires s < 2 && b < 2 && g < 64 && r < 16
    requires x == s * 0x8000_0000 && y == b * 0x4000_0000 && z == g * 0x100_0000 && u == r * 0x10_0000
    ensures Or(Or(Or(x, y), z), u) == x + y + z + u
  {
    hide Or;
    assert Pow2(31) == 0x8000_0000 && Pow2(30) == 0x4000_0000 && Pow2(24) == 0x100_0000 by {
      Pow2Values();
    }
    OrField(x, y, s, 31, 0x8000_0000);
    OrField(x + y, z, 2 * s + b, 30, 0x4000_0000);
    OrField(x + y + z, u, 128 * s + 64 * b + g, 24, 0x100_0000);
  }

  lemma BranchImmField(w: nat, f: Fields)
    requires f.InRange() && w == Join(f)
    ensures GetBranchImm(w) == ImmB(f)
  {
    hide Or, And, SraMacro, Shr, Shl32, Join;
    Bit31(w, f);
    BranchSlices(w, f);
    var x, y := And(w, 0x8000_0000), Shl32(And(w, 0x80), 23);
    var z, u := Shr(And(w, 0x7E00_0000), 1), Shl32(And(w, 0xF00), 12);
    var s, b, g, r := f.f7 / 64, f.rd % 2, f.f7 % 64, f.rd / 2;
    BranchJoin(x, y, z, u, s, b, g, r);
    assert Pow2(19) == 0x8_0000 by {
      Pow2Values();
    }
    SraField(x + y + z + u, 0x1000 * s + 0x800 * b + 32 * g + 2 * r, 19, 0x8_0000, 0x2000);
  }

  /** The slices of the word that a jump immediate is made of. */
  lemma JalSlices(w: nat, f: Fields)
    requires f.InRange() && w == Join(f)
    ensures Shl32(And(w, 0xF_F000), 11) == (f.f3 + 8 * f.rs1) * 0x80_0000
    ensures Shl32(And(w, 0x10_0000), 2) == f.rs2 % 2 * 0x40_0000
    ensures Shr(And(w, 0x7FE0_0000), 9) == (f.rs2 / 2 + 16 * (f.f7 % 64)) * 0x1000
  {
    hide And, Shr;
    Pow2Values();
    var m, g := f.f3 + 8 * f.rs1, f.rs2 / 2 + 16 * (f.f7 % 64);
    Mask(w, 0xF_F000, 8, 12, 0x100, 0x1000, f.rs2 + 32 * f.f7, m, f.op + 128 * f.rd);
    ShiftLeft(And(w, 0xF_F000), 11, 0x800, m * 0x80_0000);
    Mask(w, 0x10_0000, 1, 20, 2, 0x10_0000, f.rs2 / 2 + 16 * f.f7, f.rs2 % 2, Low20(f));
    ShiftLeft(And(w, 0x10_0000), 2, 4, f.rs2 % 2 * 0x40_0000);
    Mask(w, 0x7FE0_0000, 10, 21, 0x400, 0x20_0000, f.f7 / 64, g, Low20(f) + 0x10_0000 * (f.rs2 % 2));
    ShiftRight(And(w, 0x7FE0_0000), 9, 0x200, g * 0x1000);
  }

  lemma JalJoin(x: nat, y: nat, z: nat, u: nat, s: nat, m: nat, b: nat, g: nat)
    requires s < 2 && m < 0x100 && b < 2 && g < 0x400
    requires x == s * 0x8000_0000 && y == m * 0x80_0000 && z == b * 0x40_0000 && u == g * 0x1000
    ensures Or(Or(Or(x, y), z), u) == x + y + z + u
  {
    hide Or;
    assert Pow2(31) == 0x8000_0000 && Pow2(23) == 0x80_0000 && Pow2(22) == 0x40_0000 by {
      Pow2Values();
    }
    OrField(x, y, s, 31, 0x8000_0000);
    OrField(x + y, z, 0x100 * s + m, 23, 0x80_0000);
    OrField(x + y + z, u, 0x200 * s + 2 * m + b, 22, 0x40_0000);
  }

  lemma JalImmField(w: nat, f: Fields)
    requires f.InRange() && w == Join(f)
    ensures GetJalImm(w) == ImmJ(f)
  {
    hide Or, And, SraMacro, Shr, Shl32, Join;
    Bit31(w, f);
    JalSlices(w, f);
    var x, y := And(w, 0x8000_0000), Shl32(And(w, 0xF_F000), 11);
    var z, u := Shl32(And(w, 0x10_0000), 2), Shr(And(w, 0x7FE0_0000), 9);
    var s, m, b, g := f.f7 / 64, f.f3 + 8 * f.rs1, f.rs2 % 2, f.rs2 / 2 + 16 * (f.f7 % 64);
    JalJoin(x, y, z, u, s, m, b, g);
    assert Pow2(11) == 0x800 by {
      Pow2Values();
    }
    SraField(x + y + z + u, 0x10_0000 * s + 0x1000 * m + 0x800 * b + 2 * g, 11, 0x800, 0x20_0000);
  }

  /** The immediate macros give the immediates of section 2.3 on every word. */
  lemma Immediates(w: nat)
    requires w < TWO32
    ensures var f := Split(w);
            && GetSImm12(w) == ImmI(f) && GetStoreImm(w) == ImmS(f) && GetBranchImm(w) == ImmB(f)
            && GetSImm20(w) == ImmU(f) && GetJalImm(w) == ImmJ(f)
  {
    JoinSplit(w);
    SImm12Field(w, Split(w));
    StoreImmField(w, Split(w));
    BranchImmField(w, Split(w));
    SImm20Field(w, Split(w));
    JalImmField(w, Split(w));
  }

  // Packing any in-range immediate with arbitrary other bits and extracting it with the
  // macro of its format gives it back.

  lemma IMacroInverts(imm: int, op: nat, rd: Reg, f3: nat, rs1: Reg)
    requires op < 128 && f3 < 8 && Fits(imm, 0x1000)
    ensures GetSImm12(Join(IType(op, rd, f3, rs1, imm))) == imm
  {
    hide Join, Wrap, GetSImm12, GetStoreImm, GetBranchImm, GetSImm20, GetJalImm, ImmI, ImmS, ImmB, ImmU, ImmJ;
    IImmediate(op, rd, f3, rs1, imm);
    SImm12Field(Join(IType(op, rd, f3, rs1, imm)), IType(op, rd, f3, rs1, imm));
  }

  lemma SMacroInverts(imm: int, op: nat, f3: nat, rs1: Reg, rs2: Reg)
    requires op < 128 && f3 < 8 && Fits(imm, 0x1000)
    ensures GetStoreImm(Join(SType(op, f3, rs1, rs2, imm))) == imm
  {
    hide Join, Wrap, GetSImm12, GetStoreImm, GetBranchImm, GetSImm20, GetJalImm, ImmI, ImmS, ImmB, ImmU, ImmJ;
    SImmediate(op, f3, rs1, rs2, imm);
    StoreImmField(Join(SType(op, f3, rs1, rs2, imm)), SType(op, f3, rs1, rs2, imm));
  }

  lemma BMacroInverts(imm: int, op: nat, f3: nat, rs1: Reg, rs2: Reg)
    requires op < 128 && f3 < 8 && Fits(imm, 0x2000) && imm % 2 == 0
    ensures GetBranchImm(Join(BType(op, f3, rs1, rs2, imm))) == imm
  {
    hide Join, Wrap, GetSImm12, GetStoreImm, GetBranchImm, GetSImm20, GetJalImm, ImmI, ImmS, ImmB, ImmU, ImmJ;
    BImmediate(op, f3, rs1, rs2, imm);
    BranchImmField(Join(BType(op, f3, rs1, rs2, imm)), BType(op, f3, rs1, rs2, imm));
  }

  lemma UMacroInverts(imm: int, op: nat, rd: Reg)
    requires op < 128 && Fits(imm, TWO32) && imm % 0x1000 == 0
    ensures GetSImm20(Join(UType(op, rd, imm))) == imm
  {
    hide Join, Wrap, GetSImm12, GetStoreImm, GetBranchImm, GetSImm20, GetJalImm, ImmI, ImmS, ImmB, ImmU, ImmJ;
    UImmediate(op, rd, imm);
    SImm20Field(Join(UType(op, rd, imm)), UType(op, rd, imm));
  }

  lemma JMacroInverts(imm: int, op: nat, rd: Reg)
    requires op < 128 && Fits(imm, 0x20_0000) && imm % 2 == 0
    ensures GetJalImm(Join(JType(op, rd, imm))) == imm
  {
    hide Join, Wrap, GetSImm12, GetStoreImm, GetBranchImm, GetSImm20, GetJalImm, ImmI, ImmS, ImmB, ImmU, ImmJ;
    JImmediate(op, rd, imm);
    JalImmField(Join(JType(op, rd, imm)), JType(op, rd, imm));
  }

  // ------------------------------------------------- decoding with the macros

  lemma AluOpJoin(bit5: nat, funct3: nat)
    requires (bit5 == 0 || bit5 == 8) && funct3 < 8
    ensures Or(bit5, funct3) == bit5 + funct3
  {
    hide Or;
    assert Pow2(3) == 8;
    OrDisjoint(bit5, bit5 / 8, funct3, 3);
  }

  /** The same by the joined code that the emulator switches on: funct3 below bit 30. */
  function PlainCode(aluop: nat): AluOp {
    if aluop == 0x0 then ADD else if aluop == 0x8 then SUB else if aluop == 0x1 then SLL
    else if aluop == 0x5 then SRL else if aluop == 0xD then SRA else if aluop == 0x2 then SLT
    else if aluop == 0x3 then SLTU else if aluop == 0x7 then AND else if aluop == 0x6 then OR
    else if aluop == 0x4 then XOR else NOALU
  }

  lemma PlainCodeOk(f3: nat, bit5: bool)
    requires f3 < 8
    ensures PlainCode(if bit5 then 8 + f3 else f3) == PlainOp(f3, bit5)
  {
  }

  /** The operation that the register-register cases select. */
  function MacroOp(cfg: Config, w: nat): AluOp {
    if cfg.mext && CheckFunct7Bit0(w) then MulDivOp(GetFunct3(w))
    else PlainCode(Or(AluFunct7Bit5(w), GetFunct3(w)))
  }

  lemma RegisterDecode(cfg: Config, w: nat)
    requires w < TWO32
    ensures GetFunct3(w) < 8 && GetRs1(w) < 32 && GetRs2(w) < 32 && GetRd(w) < 32
    ensures Or(AluFunct7Bit5(w), GetFunct3(w)) < 16
    ensures GetOpcode(w) == 0x33 ==> Decode(cfg, w) == Alu(MacroOp(cfg, w), GetRd(w), GetRs1(w), GetRs2(w))
    ensures GetOpcode(w) == 0x3B && cfg.rv64 ==>
              Decode(cfg, w) == AluW(WordOp(MacroOp(cfg, w)), GetRd(w), GetRs1(w), GetRs2(w))
  {
    hide Or, And, Shr, Split, Join, GetRs1, GetRs2, GetRd, GetFunct3, GetOpcode, AluFunct7Bit5, CheckFunct7Bit0,
      CheckFunct7Bit5, PlainCode, PlainOp, MulDivOp, WordOp, ImmI, ImmS, ImmB, ImmU, ImmJ;
    PlainFields(w);
    Funct7Bits(w);
    JoinSplit(w);
    AluOpJoin(AluFunct7Bit5(w), GetFunct3(w));
    PlainCodeOk(GetFunct3(w), CheckFunct7Bit5(w));
  }

  lemma ImmIFits(f: Fields)
    requires f.InRange()
    ensures Fits(ImmI(f), 0x1000)
  {
  }

  lemma ImmediateDecode(cfg: Config, w: nat)
    requires w < TWO32
    ensures var f, op := Split(w), ImmOp(GetFunct3(w), CheckFunct7Bit5(w));
            && f.InRange() && GetFunct3(w) < 8 && GetRs1(w) < 32 && GetRd(w) < 32
            && GetSImm12(w) == ImmI(f) && Fits(ImmI(f), 0x1000)
            && (GetOpcode(w) == 0x13 ==>
                  Decode(cfg, w) == AluImm(op, GetRd(w), GetRs1(w), ImmOperand(op, f, cfg.Xlen())))
            && (GetOpcode(w) == 0x1B && cfg.rv64 ==>
                  Decode(cfg, w) == AluImmW(WordOp(op), GetRd(w), GetRs1(w), ImmOperand(WordOp(op), f, 32)))
            && (GetOpcode(w) == 0x03 ==>
                  Decode(cfg, w) == Load(LoadOp(cfg, GetFunct3(w)), GetRd(w), GetRs1(w), GetSImm12(w)))
            && (GetOpcode(w) == 0x67 ==> Decode(cfg, w) == Jalr(GetRd(w), GetRs1(w), GetSImm12(w)))
  {
    hide Split, Join, GetRs1, GetRs2, GetRd, GetFunct3, GetOpcode, GetSImm12, AluFunct7Bit5, CheckFunct7Bit0,
      CheckFunct7Bit5, PlainOp, MulDivOp, WordOp, ImmOp, ImmOperand, LoadOp, ImmI, ImmS, ImmB, ImmU, ImmJ;
    PlainFields(w);
    Funct7Bits(w);
    JoinSplit(w);
    SImm12Field(w, Split(w));
    ImmIFits(Split(w));
  }

  lemma StoreBranchDecode(cfg: Config, w: nat)
    requires w < TWO32
    ensures GetFunct3(w) < 8 && GetRs1(w) < 32 && GetRs2(w) < 32
    ensures GetOpcode(w) == 0x23 ==>
              Decode(cfg, w) == Store(StoreOp(cfg, GetFunct3(w)), GetRs1(w), GetRs2(w), GetStoreImm(w))
    ensures GetOpcode(w) == 0x63 ==>
              Decode(cfg, w) == Branch(CondOf(GetFunct3(w)), GetRs1(w), GetRs2(w), GetBranchImm(w))
  {
    hide Split, Join, GetRs1, GetRs2, GetRd, GetFunct3, GetOpcode, GetStoreImm, GetBranchImm, StoreOp, CondOf,
      ImmI, ImmS, ImmB, ImmU, ImmJ;
    PlainFields(w);
    JoinSplit(w);
    StoreImmField(w, Split(w));
    BranchImmField(w, Split(w));
  }

  lemma UpperDecode(cfg: Config, w: nat)
    requires w < TWO32
    ensures GetRd(w) < 32
    ensures GetOpcode(w) == 0x17 ==> Decode(cfg, w) == Auipc(GetRd(w), GetSImm20(w))
    ensures GetOpcode(w) == 0x37 ==> Decode(cfg, w) == Lui(GetRd(w), GetSImm20(w))
    ensures GetOpcode(w) == 0x6F ==> Decode(cfg, w) == Jal(GetRd(w), GetJalImm(w))
  {
    hide Split, Join, GetRs1, GetRs2, GetRd, GetFunct3, GetOpcode, GetSImm20, GetJalImm, ImmI, ImmS, ImmB, ImmU, ImmJ;
    PlainFields(w);
    JoinSplit(w);
    SImm20Field(w, Split(w));
    JalImmField(w, Split(w));
  }

  lemma SystemDecode(cfg: Config, w: nat)
    requires w < TWO32
    ensures GetFunct3(w) < 8 && GetRs1(w) < 32 && GetRd(w) < 32
    ensures GetOpcode(w) == 0x73 ==>
              Decode(cfg, w) == if GetFunct3(w) == 0 then Env(GetRd(w), GetRs1(w), GetImm12(w))
                                else Csr(GetFunct3(w), GetRd(w), GetRs1(w), GetImm12(w))
  {
    hide Split, Join, GetRs1, GetRs2, GetRd, GetFunct3, GetOpcode, GetImm12, ImmI, ImmS, ImmB, ImmU, ImmJ;
    PlainFields(w);
    Funct7Bits(w);
    JoinSplit(w);
  }

  /** Only SYSTEM words can stop the machine, and only the opcodes of the switch are decoded. */
  lemma OtherDecode(cfg: Config, w: nat)
    requires w < TWO32
    ensures GetOpcode(w) != 0x73 ==> !Decode(cfg, w).Env?
    ensures GetOpcode(w) == 0x0F ==> Decode(cfg, w) == Fence
    ensures (&& GetOpcode(w) !in {0x33, 0x13, 0x03, 0x23, 0x63, 0x0F, 0x17, 0x37, 0x6F, 0x67, 0x73}
             && (cfg.rv64 ==> GetOpcode(w) !in {0x3B, 0x1B}))
            ==> Decode(cfg, w) == Unknown
  {
    hide GetOpcode, Split;
    PlainFields(w);
  }
}

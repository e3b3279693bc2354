/** The right-hand sides that src/cpu/core.c assigns to rd, as expressions on C's fixed
    width types, and the ISA results they equal. */
module Alu {
  import opened Words
  import opened Arch
  import opened MulDiv
  import opened Isa
  import opened Semantics

  // ------------------------------------------------------- XLEN-wide operations

  /** `(sreg_t) a + (sreg_t) b`, stored back unsigned; SUB likewise. */
  function CAdd(m: int, a: nat, b: int): nat
    requires 0 < m
  {
    Wrap(m, Signed(m, a) + b)
  }

  function CSub(m: int, a: nat, b: int): nat
    requires 0 < m
  {
    Wrap(m, Signed(m, a) - b)
  }

  /** `b & SHIFT_MAX`. */
  function CAmount(b: nat, xlen: nat): nat
    requires xlen == 32 || xlen == 64
  {
    And(b, if xlen == 64 then 0x3F else 0x1F)
  }

  function CSll(m: int, a: nat, sh: nat): nat
    requires 0 < m
  {
    Wrap(m, a * Pow2(sh))
  }

  function CMulh(rv64: bool, a: int, b: int): int {
    if rv64 then MulhPortable(a, b) else Signed(TWO32, MulhWide(TWO32, a, b))
  }

  function CMulhsu(rv64: bool, a: int, b: nat): int {
    if rv64 then MulhsuPortable(a, b) else Signed(TWO32, MulhWide(TWO32, a, b))
  }

  function CMulhu(rv64: bool, a: nat, b: nat): nat {
    if rv64 then Mulhudw(a, b) else MulhWide(TWO32, a, b)
  }

  predicate Pair(cfg: Config, a: nat, b: nat) {
    a < cfg.Modulus() && b < cfg.Modulus()
  }

  lemma AmountOk(b: nat, xlen: nat)
    requires xlen == 32 || xlen == 64
    ensures CAmount(b, xlen) == Amount(b, xlen)
  {
    hide And, Pow2;
    Pow2Values();
    AndLow(b, if xlen == 64 then 6 else 5, b / xlen, b % xlen);
  }

  lemma AddOk(m: int, a: nat, b: nat)
    requires a < m && b < m
    ensures CAdd(m, a, Signed(m, b)) == Wrap(m, a + b)
    ensures CSub(m, a, Signed(m, b)) == Wrap(m, a - b)
  {
    WrapSignedPlus(m, a, Signed(m, b));
    WrapSignedPlus(m, b, a);
    WrapSignedPlus(m, a, -Signed(m, b));
    if 2 * b >= m {
      WrapPlus(m, a - b, 1);
    }
  }

  lemma ShiftOk(cfg: Config, a: nat, b: nat)
    requires Pair(cfg, a, b)
    ensures CSll(cfg.Modulus(), a, CAmount(b, cfg.Xlen())) == AluAt(cfg.Modulus(), cfg.Xlen(), SLL, a, b)
    ensures Shr(a, CAmount(b, cfg.Xlen())) == AluAt(cfg.Modulus(), cfg.Xlen(), SRL, a, b)
    ensures CAmount(b, cfg.Xlen()) < cfg.Xlen()
    ensures Wrap(cfg.Modulus(), SraMacro(cfg.Xlen(), a, CAmount(b, cfg.Xlen())))
            == AluAt(cfg.Modulus(), cfg.Xlen(), SRA, a, b)
  {
    hide And, Shr, SraMacro, Pow2, Wrap, Signed, Amount, CAmount;
    var n := Amount(b, cfg.Xlen());
    AmountOk(b, cfg.Xlen());
    ShrIsQuotient(a, n);
    ShrBound(a, n);
    WrapSmall(cfg.Modulus(), Shr(a, n));
    ModulusIsPow2(cfg);
    SraIsFloor(cfg.Xlen(), a, n);
  }

  lemma BitwiseOk(cfg: Config, a: nat, b: nat)
    requires Pair(cfg, a, b)
    ensures And(a, b) < cfg.Modulus() && Or(a, b) < cfg.Modulus() && Xor(a, b) < cfg.Modulus()
  {
    hide And, Or, Xor, Pow2;
    ModulusIsPow2(cfg);
    BitwiseBound(a, b, cfg.Xlen());
  }

  lemma HighProductsOk(cfg: Config, a: nat, b: nat)
    requires Pair(cfg, a, b)
    ensures var m, x, y := cfg.Modulus(), Signed(cfg.Modulus(), a), Signed(cfg.Modulus(), b);
            && Wrap(m, CMulh(cfg.rv64, x, y)) == AluAt(m, cfg.Xlen(), MULH, a, b)
            && Wrap(m, CMulhsu(cfg.rv64, x, b)) == AluAt(m, cfg.Xlen(), MULHSU, a, b)
            && CMulhu(cfg.rv64, a, b) == AluAt(m, cfg.Xlen(), MULHU, a, b)
  {
    hide Signed, Wrap, MulhPortable, MulhsuPortable, Mulhudw, MulhWide;
    var m := cfg.Modulus();
    var x, y := Signed(m, a), Signed(m, b);
    if cfg.rv64 {
      SignedInRange(TWO64, a);
      SignedInRange(TWO64, b);
      MulhPortableExact(x, y);
      MulhsuPortableExact(x, b);
      MulhudwExact(a, b);
      WrapSmall(TWO64, Mulhudw(a, b));
    } else {
      MulhWideExact(TWO32, x, y);
      MulhWideExact(TWO32, x, b);
      MulhWideExact(TWO32, a, b);
      WrapSigned(TWO32, MulhWide(TWO32, x, y));
      WrapSigned(TWO32, MulhWide(TWO32, x, b));
    }
  }

  /** A product is the same modulo m whichever way its factors are read. */
  lemma SignedProduct(m: int, a: int, b: int, x: int, y: int)
    requires 0 < m && (x == a || x == a - m) && (y == b || y == b - m)
    ensures Wrap(m, x * y) == Wrap(m, a * b)
  {
    var j, k := if x == a then 0 else 1, if y == b then 0 else 1;
    assert x * y == a * b + (j * k * m - j * b - k * a) * m by {
      assert (a - j * m) * (b - k * m) == a * b - a * (k * m) - j * m * b + j * m * (k * m);
      assert a * (k * m) == k * a * m && j * m * b == j * b * m && j * m * (k * m) == j * k * m * m;
    }
    WrapPlus(m, a * b, j * k * m - j * b - k * a);
  }

  lemma WrapWholeProduct(m: int, a: nat, b: nat)
    requires a < m && b < m
    ensures Wrap(m * m, a * b) == a * b
  {
    MulLeft(a, m - 1, b);
    MulLeft(b, m - 1, m - 1);
    WrapSmall(m * m, a * b);
  }

  /** Each high product beside MUL rebuilds the whole product: the unsigned one exactly, the
      others in two's complement of twice the width. */
  lemma ProductPairs(cfg: Config, a: nat, b: nat)
    requires Pair(cfg, a, b)
    ensures var m, xlen, x, y := cfg.Modulus(), cfg.Xlen(), Signed(cfg.Modulus(), a), Signed(cfg.Modulus(), b);
            && AluAt(m, xlen, MULHU, a, b) * m + AluAt(m, xlen, MUL, a, b) == a * b
            && AluAt(m, xlen, MULH, a, b) * m + AluAt(m, xlen, MUL, a, b) == Wrap(m * m, x * y)
            && AluAt(m, xlen, MULHSU, a, b) * m + AluAt(m, xlen, MUL, a, b) == Wrap(m * m, x * b)
  {
    var m, x, y := cfg.Modulus(), Signed(cfg.Modulus(), a), Signed(cfg.Modulus(), b);
    ProductRebuilt(m, a * b);
    ProductRebuilt(m, x * y);
    ProductRebuilt(m, x * b);
    SignedProduct(m, a, b, x, y);
    SignedProduct(m, a, b, x, b);
    WrapWholeProduct(m, a, b);
  }

  lemma DivisionOk(m: int, xlen: nat, a: nat, b: nat)
    requires a < m && b < m && m % 2 == 0 && 0 < xlen
    ensures Wrap(m, RvDiv(m, Signed(m, a), Signed(m, b))) == AluAt(m, xlen, DIV, a, b)
    ensures Wrap(m, RvRem(m, Signed(m, a), Signed(m, b))) == AluAt(m, xlen, REM, a, b)
    ensures Wrap(m, RvDivu(m, a, b)) == AluAt(m, xlen, DIVU, a, b)
    ensures Wrap(m, RvRemu(m, a, b)) == AluAt(m, xlen, REMU, a, b)
    ensures IsSigned(m, RvDiv(m, Signed(m, a), Signed(m, b)))
    ensures IsSigned(m, RvRem(m, Signed(m, a), Signed(m, b)))
    ensures 0 <= RvDivu(m, a, b) < m && 0 <= RvRemu(m, a, b) < m
  {
    var x, y := Signed(m, a), Signed(m, b);
    DivisionContract(m, x, y);
    DivisionContractUnsigned(m, a, b);
    WrapPlus(m, -1, 1);
    if 2 * x == -m && y == -1 {
      WrapPlus(m, x, 1);
    }
  }

  lemma AluBound(cfg: Config, op: AluOp, a: nat, b: nat)
    requires Pair(cfg, a, b)
    ensures AluAt(cfg.Modulus(), cfg.Xlen(), op, a, b) < cfg.Modulus()
  {
    hide Wrap, And, Or, Xor;
    BitwiseOk(cfg, a, b);
  }

  /** Every right-hand side of the base OP case. */
  lemma PlainOk(cfg: Config, a: nat, b: nat)
    requires Pair(cfg, a, b)
    ensures var m, xlen, n := cfg.Modulus(), cfg.Xlen(), CAmount(b, cfg.Xlen());
            && n < xlen
            && CAdd(m, a, Signed(m, b)) == AluAt(m, xlen, ADD, a, b)
            && CSub(m, a, Signed(m, b)) == AluAt(m, xlen, SUB, a, b)
            && CSll(m, a, n) == AluAt(m, xlen, SLL, a, b)
            && Shr(a, n) == AluAt(m, xlen, SRL, a, b)
            && Wrap(m, SraMacro(xlen, a, n)) == AluAt(m, xlen, SRA, a, b)
            && (if Signed(m, a) < Signed(m, b) then 1 else 0) == AluAt(m, xlen, SLT, a, b)
            && (if a < b then 1 else 0) == AluAt(m, xlen, SLTU, a, b)
            && And(a, b) == AluAt(m, xlen, AND, a, b)
            && Or(a, b) == AluAt(m, xlen, OR, a, b)
            && Xor(a, b) == AluAt(m, xlen, XOR, a, b)
  {
    hide Wrap, And, Or, Xor, Shr, SraMacro, CAmount, CAdd, CSub, CSll, Signed;
    AddOk(cfg.Modulus(), a, b);
    ShiftOk(cfg, a, b);
  }

  /** Every right-hand side of the multiply/divide OP case. */
  lemma MulDivOk(cfg: Config, a: nat, b: nat)
    requires Pair(cfg, a, b)
    ensures var m, xlen, x, y := cfg.Modulus(), cfg.Xlen(), Signed(cfg.Modulus(), a), Signed(cfg.Modulus(), b);
            && RvMul(m, a, b) == AluAt(m, xlen, MUL, a, b)
            && Wrap(m, CMulh(cfg.rv64, x, y)) == AluAt(m, xlen, MULH, a, b)
            && Wrap(m, CMulhsu(cfg.rv64, x, b)) == AluAt(m, xlen, MULHSU, a, b)
            && CMulhu(cfg.rv64, a, b) == AluAt(m, xlen, MULHU, a, b)
            && Wrap(m, RvDiv(m, x, y)) == AluAt(m, xlen, DIV, a, b)
            && Wrap(m, RvDivu(m, a, b)) == AluAt(m, xlen, DIVU, a, b)
            && Wrap(m, RvRem(m, x, y)) == AluAt(m, xlen, REM, a, b)
            && Wrap(m, RvRemu(m, a, b)) == AluAt(m, xlen, REMU, a, b)
  {
    hide Signed, Wrap, CMulh, CMulhsu, CMulhu, RvDiv, RvRem, RvDivu, RvRemu, Quotient, Remainder;
    HighProductsOk(cfg, a, b);
    DivisionOk(cfg.Modulus(), cfg.Xlen(), a, b);
  }

  // ----------------------------------------------------- 32-bit forms of RV64

  /** `(uint32_t) a` and `(int32_t) a`. */
  function U32(a: nat): nat { a % TWO32 }
  function I32(a: nat): int { Signed(TWO32, U32(a)) }

  /** `(sreg_t) (int32_t) u` stored back unsigned. */
  function StoreI32(u: int): nat {
    Wrap(TWO64, Signed(TWO32, Wrap(TWO32, u)))
  }

  lemma StoreI32Small(q: int)
    requires IsSigned(TWO32, q)
    ensures StoreI32(q) == Wrap(TWO64, q)
  {
    SignedWrap(TWO32, q);
  }

  lemma AddWOk(a: nat, b: nat)
    ensures StoreI32(I32(a) + I32(b)) == AluWAt(ADD, a, b)
    ensures StoreI32(I32(a) - I32(b)) == AluWAt(SUB, a, b)
  {
    AddOk(TWO32, U32(a), U32(b));
  }

  lemma AmountW(b: nat)
    ensures And(b, 0x1F) == Amount(U32(b), 32)
  {
    hide And;
    AmountOk(b, 32);
  }

  lemma FloorBounds(v: int, q: int, r: int, p: int)
    requires v == q * p + r && 0 <= r < p
    ensures v >= 0 ==> 0 <= q <= v
    ensures v < 0 ==> v <= q < 0
  {
    if q >= 0 {
      MulLeft(1, p, q);
    } else {
      MulLeft(1, -q, p - 1);
      assert -q * (p - 1) == q - q * p;
      MulLeft(q, -1, p);
    }
  }

  lemma FloorShrinks(v: int, p: int)
    requires 1 <= p
    ensures v >= 0 ==> 0 <= v / p <= v
    ensures v < 0 ==> v <= v / p < 0
  {
    FloorBounds(v, v / p, v % p, p);
  }

  lemma SraRange(x: nat, n: nat)
    requires x < TWO32 && n < 32
    ensures IsSigned(TWO32, SraMacro(32, x, n))
  {
    hide And, Shr, Or;
    assert Pow2(32) == TWO32 by {
      Pow2Values();
    }
    SraIsFloor(32, x, n);
    FloorShrinks(Signed(TWO32, x), Pow2(n));
  }

  lemma ShiftWOk(a: nat, b: nat)
    ensures StoreI32(CSll(TWO32, U32(a), And(b, 0x1F))) == AluWAt(SLL, a, b)
    ensures StoreI32(Shr(U32(a), And(b, 0x1F))) == AluWAt(SRL, a, b)
    ensures And(b, 0x1F) < 32
    ensures Wrap(TWO64, SraMacro(32, U32(a), And(b, 0x1F))) == AluWAt(SRA, a, b)
  {
    hide And, Shr, SraMacro, Pow2, Signed, Amount, Wrap;
    var n, x := Amount(U32(b), 32), U32(a);
    AmountW(b);
    WrapSmall(TWO32, CSll(TWO32, x, n));
    ShrIsQuotient(x, n);
    ShrBound(x, n);
    WrapSmall(TWO32, Shr(x, n));
    assert Pow2(32) == TWO32 by {
      Pow2Values();
    }
    SraIsFloor(32, x, n);
    SraRange(x, n);
    StoreI32Small(SraMacro(32, x, n));
  }

  lemma MulDivWOk(a: nat, b: nat)
    ensures StoreI32(RvMul(TWO32, U32(a), U32(b))) == AluWAt(MUL, a, b)
    ensures Wrap(TWO64, RvDiv(TWO32, I32(a), I32(b))) == AluWAt(DIV, a, b)
    ensures StoreI32(RvDivu(TWO32, U32(a), U32(b))) == AluWAt(DIVU, a, b)
    ensures Wrap(TWO64, RvRem(TWO32, I32(a), I32(b))) == AluWAt(REM, a, b)
    ensures StoreI32(RvRemu(TWO32, U32(a), U32(b))) == AluWAt(REMU, a, b)
  {
    hide RvDiv, RvRem, RvDivu, RvRemu, Quotient, Remainder, Signed, Wrap;
    WrapSmall(TWO32, RvMul(TWO32, U32(a), U32(b)));
    DivisionOk(TWO32, 32, U32(a), U32(b));
    StoreI32Small(RvDiv(TWO32, I32(a), I32(b)));
    StoreI32Small(RvRem(TWO32, I32(a), I32(b)));
  }

  // ------------------------------------------------------------- immediates

  /** A shift looks only at the low bits of its operand. */
  lemma AmountOnly(m: int, xlen: nat, op: AluOp, a: nat, b: nat, b': nat)
    requires 0 < m && 0 < xlen && op in {SLL, SRL, SRA} && Amount(b, xlen) == Amount(b', xlen)
    ensures AluAt(m, xlen, op, a, b) == AluAt(m, xlen, op, a, b')
  {
  }

  /** Wrapping keeps the low bits. */
  lemma WrapLow(m: int, d: int, imm: int, q: int, r: int)
    requires m in {TWO32, TWO64} && d in {32, 64} && imm == q * d + r && 0 <= r < d
    ensures Wrap(m, imm) % d == r
  {
    var k, p := imm / m, m / d;
    assert m == p * d;
    assert Wrap(m, imm) == (q - k * p) * d + r by {
      assert (q - k * p) * d == q * d - k * (p * d);
    }
    DivModUnique(Wrap(m, imm), d, q - k * p, r);
  }

  lemma ImmAmount(f: Fields)
    requires f.InRange()
    ensures Wrap(TWO64, ImmI(f)) % 64 == f.rs2 + f.f7 % 2 * 32
    ensures Wrap(TWO64, ImmI(f)) % 32 == Wrap(TWO32, ImmI(f)) % 32 == f.rs2
  {
    hide Wrap;
    var h, u := f.f7 / 2, f.rs2 + 32 * f.f7;
    var x := if 2 * u < 0x1000 then h else h - 64;
    assert ImmI(f) == f.rs2 + f.f7 % 2 * 32 + 64 * x;
    WrapLow(TWO64, 64, ImmI(f), x, f.rs2 + f.f7 % 2 * 32);
    WrapLow(TWO64, 32, ImmI(f), 2 * x + f.f7 % 2, f.rs2);
    WrapLow(TWO32, 32, ImmI(f), 2 * x + f.f7 % 2, f.rs2);
  }

  /** The immediate an operation uses, as opposed to the raw 12 bits: the same result. */
  lemma OperandOk(cfg: Config, op: AluOp, a: nat, f: Fields)
    requires f.InRange()
    ensures AluAt(cfg.Modulus(), cfg.Xlen(), op, a, Wrap(cfg.Modulus(), ImmOperand(op, f, cfg.Xlen())))
            == AluAt(cfg.Modulus(), cfg.Xlen(), op, a, Wrap(cfg.Modulus(), ImmI(f)))
  {
    hide AluAt, ImmI;
    var m, xlen, sh := cfg.Modulus(), cfg.Xlen(), ImmOperand(op, f, cfg.Xlen());
    if op in {SLL, SRL, SRA} {
      ImmAmount(f);
      WrapSmall(m, sh);
      WrapSmall(xlen, sh);
      AmountOnly(m, xlen, op, a, Wrap(m, sh), Wrap(m, ImmI(f)));
    }
  }

  lemma LowFive(b: nat)
    ensures b % TWO32 % 32 == b % 32
  {
  }

  lemma OperandWOk(op: AluOp, a: nat, f: Fields)
    requires f.InRange()
    ensures AluWAt(op, a, Wrap(TWO64, ImmOperand(op, f, 32))) == AluWAt(op, a, Wrap(TWO64, ImmI(f)))
  {
    hide AluAt, ImmI, Wrap;
    var sh, b := ImmOperand(op, f, 32), Wrap(TWO64, ImmI(f));
    if op in {SLL, SRL, SRA} {
      ImmAmount(f);
      WrapSmall(TWO64, sh);
      LowFive(b);
      AmountOnly(TWO32, 32, op, a % TWO32, sh, b % TWO32);
    }
  }

  lemma SmallImmediate(m: int, imm: int)
    requires m == TWO32 || m == TWO64
    requires Fits(imm, 0x1000)
    ensures Signed(m, Wrap(m, imm)) == imm
  {
    SignedWrap(m, imm);
  }

  /** Every right-hand side of the 32-bit OP case, multiply/divide included. */
  lemma WordOk(a: nat, b: nat)
    ensures var n := And(b, 0x1F);
            && n < 32
            && StoreI32(I32(a) + I32(b)) == AluWAt(ADD, a, b)
            && StoreI32(I32(a) - I32(b)) == AluWAt(SUB, a, b)
            && StoreI32(CSll(TWO32, U32(a), n)) == AluWAt(SLL, a, b)
            && StoreI32(Shr(U32(a), n)) == AluWAt(SRL, a, b)
            && Wrap(TWO64, SraMacro(32, U32(a), n)) == AluWAt(SRA, a, b)
            && StoreI32(RvMul(TWO32, U32(a), U32(b))) == AluWAt(MUL, a, b)
            && Wrap(TWO64, RvDiv(TWO32, I32(a), I32(b))) == AluWAt(DIV, a, b)
            && StoreI32(RvDivu(TWO32, U32(a), U32(b))) == AluWAt(DIVU, a, b)
            && Wrap(TWO64, RvRem(TWO32, I32(a), I32(b))) == AluWAt(REM, a, b)
            && StoreI32(RvRemu(TWO32, U32(a), U32(b))) == AluWAt(REMU, a, b)
  {
    hide *;
    AddWOk(a, b);
    ShiftWOk(a, b);
    MulDivWOk(a, b);
  }

  /** `(int32_t) imm` is the immediate itself. */
  lemma WordImmediate(imm: int)
    requires Fits(imm, 0x1000)
    ensures I32(Wrap(TWO64, imm)) == imm
  {
    var u := Wrap(TWO64, imm);
    if imm < 0 {
      DivModUnique(imm, TWO64, -1, imm + TWO64);
      DivModUnique(u, TWO32, TWO32 - 1, imm + TWO32);
    } else {
      WrapSmall(TWO64, imm);
      WrapSmall(TWO32, imm);
    }
  }
}

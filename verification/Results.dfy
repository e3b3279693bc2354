/** What the integer operations compute, in numbers and bits: signed and unsigned values,
    binary digits, quotients and remainders of magnitudes. */
module Results {
  import opened Words
  import opened MulDiv
  import opened Isa
  import opened Semantics

  /** 2^32 or 2^64. */
  function Size(xlen: nat): nat {
    if xlen == 64 then 0x1_0000_0000_0000_0000 else 0x1_0000_0000
  }

  /** The integer that a word of m values stands for when it is read as signed. */
  function Int(m: nat, u: nat): int {
    if u < m / 2 then u else u - m
  }

  function Abs(x: int): nat {
    if x < 0 then -x else x
  }

  /** The quotient of magnitudes, negative if one operand is. */
  function Divided(x: int, y: int): int
    requires y != 0
  {
    if (x < 0) == (y < 0) then Abs(x) / Abs(y) else -(Abs(x) / Abs(y))
  }

  /** The remainder of magnitudes, with the sign of the dividend. */
  function Rest(x: int, y: int): int
    requires y != 0
  {
    if x < 0 then -(Abs(x) % Abs(y)) else Abs(x) % Abs(y)
  }

  /** r is what an operation makes of a and b, words of xlen bits. */
  ghost predicate Computes(xlen: nat, op: AluOp, a: nat, b: nat, r: nat)
    requires xlen == 32 || xlen == 64
  {
    var m := Size(xlen);
    var x, y, n := Int(m, a), Int(m, b), b % xlen;
    r < m &&
    match op
    case ADD => r == (a + b) % m
    case SUB => r == (a - b) % m
    case SLL => forall i :: 0 <= i < xlen ==> Bit(r, i) == (n <= i && Bit(a, i - n))
    case SRL => forall i :: 0 <= i < xlen ==> Bit(r, i) == (i + n < xlen && Bit(a, i + n))
    case SRA => forall i :: 0 <= i < xlen ==> Bit(r, i) == Bit(a, if i + n < xlen then i + n else xlen - 1)
    case SLT => r == if x < y then 1 else 0
    case SLTU => r == if a < b then 1 else 0
    case XOR => forall i :: 0 <= i < xlen ==> Bit(r, i) == (Bit(a, i) != Bit(b, i))
    case OR => forall i :: 0 <= i < xlen ==> Bit(r, i) == (Bit(a, i) || Bit(b, i))
    case AND => forall i :: 0 <= i < xlen ==> Bit(r, i) == (Bit(a, i) && Bit(b, i))
    case MUL => r == a * b % m
    case MULH => r == x * y / m % m
    case MULHSU => r == x * b / m % m
    case MULHU => r == a * b / m
    case DIV => if y == 0 then r == m - 1 else r == Divided(x, y) % m
    case DIVU => if b == 0 then r == m - 1 else r == a / b
    case REM => if y == 0 then r == a else r == Rest(x, y) % m
    case REMU => if b == 0 then r == a else r == a % b
    case NOALU => true
  }

  // ------------------------------------------------------------------------ bits

  lemma {:induction false} BitOfTimes(a: nat, n: nat, i: nat)
    ensures Bit(a * Pow2(n), i) == (n <= i && Bit(a, i - n))
    decreases n
  {
    if n == 0 {
      Pow2Zero();
      Ones(a);
    } else {
      Pow2Double(n);
      Twice(a, Pow2(n - 1));
      if i > 0 {
        BitOfTimes(a, n - 1, i - 1);
      }
    }
  }

  lemma {:induction false} BitOfShr(a: nat, n: nat, i: nat)
    ensures Bit(Shr(a, n), i) == Bit(a, i + n)
    decreases n
  {
    if n == 0 {
    } else {
      BitOfShr(a / 2, n - 1, i);
    }
  }

  /** The digits of a number put on top of a smaller one. */
  lemma {:induction false} BitOfSum(low: nat, high: nat, k: nat, i: nat)
    requires low < Pow2(k)
    ensures Bit(high * Pow2(k) + low, i) == if i < k then Bit(low, i) else Bit(high, i - k)
    decreases k
  {
    if k == 0 {
      Pow2Zero();
      Ones(high);
    } else {
      Pow2Double(k);
      Twice(high, Pow2(k - 1));
      var x, p := high * Pow2(k) + low, high * Pow2(k - 1);
      assert x == 2 * (p + low / 2) + low % 2;
      if i > 0 {
        BitOfSum(low / 2, high, k - 1, i - 1);
      }
    }
  }

  lemma BitOfRest(x: nat, k: nat, i: nat)
    requires i < k
    ensures Bit(x % Pow2(k), i) == Bit(x, i)
  {
    hide Pow2, Bit;
    var p, q, r := Pow2(k), x / Pow2(k), x % Pow2(k);
    assert x == q * p + r;
    BitOfSum(r, q, k, i);
  }

  lemma {:induction false} AllOnes(n: nat, i: nat)
    ensures Bit(Pow2(n) - 1, i) == (i < n)
    decreases n
  {
    if n == 0 {
      Pow2Zero();
      ZeroBit(i);
    } else {
      Pow2Double(n);
      if i > 0 {
        AllOnes(n - 1, i - 1);
      }
    }
  }

  lemma {:induction false} NoBitAbove(a: nat, k: nat, i: nat)
    requires a < Pow2(k) && k <= i
    ensures !Bit(a, i)
  {
    BitOfSum(a, 0, k, i);
    ZeroBit(i - k);
  }

  lemma TopBit(xlen: nat, a: nat)
    requires 0 < xlen && a < Pow2(xlen)
    ensures Bit(a, xlen - 1) <==> Pow2(xlen - 1) <= a
  {
    var p := Pow2(xlen - 1);
    Pow2Double(xlen);
    if p <= a {
      Ones(p);
      BitOfSum(a - p, 1, xlen - 1, xlen - 1);
    } else {
      NoBitAbove(a, xlen - 1, xlen - 1);
    }
  }

  // ---------------------------------------------------------------------- shifts

  lemma LeftShift(xlen: nat, a: nat, n: nat, i: nat)
    requires i < xlen
    ensures Bit(a * Pow2(n) % Pow2(xlen), i) == (n <= i && Bit(a, i - n))
  {
    BitOfRest(a * Pow2(n), xlen, i);
    BitOfTimes(a, n, i);
  }

  lemma RightShift(xlen: nat, a: nat, n: nat, i: nat)
    requires a < Pow2(xlen)
    ensures Shr(a, n) == a / Pow2(n) && Bit(Shr(a, n), i) == (i + n < xlen && Bit(a, i + n))
  {
    hide Shr, Pow2, Bit;
    ShrIsQuotient(a, n);
    BitOfShr(a, n, i);
    if i + n >= xlen {
      NoBitAbove(a, xlen, i + n);
    }
  }

  lemma Below(q: nat, t: nat, p: nat, a: nat)
    requires 0 < p && q * p <= a < p * t
    ensures q < t
  {
    if q >= t {
      MulLeft(t, q, p);
    }
  }

  lemma NegativeQuotient(a: nat, p: nat, t: nat, q: nat, r: nat)
    requires 0 < p && a == q * p + r && r < p
    ensures (a - p * t) / p == q - t
  {
    assert a - p * t == (q - t) * p + r by {
      assert (q - t) * p == q * p - t * p;
    }
    DivModUnique(a - p * t, p, q - t, r);
  }

  lemma NegativeWord(p: nat, t: nat, q: nat, m: nat)
    requires 0 < p && q < t && m == p * t
    ensures (q - t) % m == (p - 1) * t + q
  {
    assert (p - 1) * t + q == m - t + q by {
      assert (p - 1) * t == p * t - t;
    }
    assert 0 <= m - t + q < m by {
      MulAtLeast(p, t);
    }
    DivModUnique(q - t, m, -1, m - t + q);
  }

  /** A negative number shifted: the shifted digits below as many ones. */
  lemma FloorOfNegative(xlen: nat, a: nat, n: nat)
    requires n < xlen && a < Pow2(xlen)
    ensures var p, k, q := Pow2(n), xlen - n, Shr(a, n);
            && q < Pow2(k) && (a - Pow2(xlen)) / p % Pow2(xlen) == (p - 1) * Pow2(k) + q
  {
    hide Pow2, Shr;
    var p, t, m := Pow2(n), Pow2(xlen - n), Pow2(xlen);
    Pow2Add(n, xlen - n);
    ShrIsQuotient(a, n);
    var q, r := a / p, a % p;
    assert a == q * p + r;
    Below(q, t, p, a);
    NegativeQuotient(a, p, t, q, r);
    NegativeWord(p, t, q, m);
  }

  lemma ArithmeticShift(xlen: nat, a: nat, n: nat, i: nat)
    requires 0 < xlen && n < xlen && i < xlen && a < Pow2(xlen)
    ensures var x := if a < Pow2(xlen - 1) then a else a - Pow2(xlen);
            Bit(x / Pow2(n) % Pow2(xlen), i) == Bit(a, if i + n < xlen then i + n else xlen - 1)
  {
    hide Pow2, Bit, Shr;
    TopBit(xlen, a);
    RightShift(xlen, a, n, i);
    if a < Pow2(xlen - 1) {
      BitOfRest(Shr(a, n), xlen, i);
    } else {
      FloorOfNegative(xlen, a, n);
      BitOfSum(Shr(a, n), Pow2(n) - 1, xlen - n, i);
      if i >= xlen - n {
        AllOnes(n, i - (xlen - n));
      }
    }
  }

  // ------------------------------------------------------------------ operations

  lemma SizeIs(xlen: nat)
    requires xlen == 32 || xlen == 64
    ensures Size(xlen) == Pow2(xlen) && Size(xlen) / 2 == Pow2(xlen - 1)
  {
    Pow2Values();
  }

  lemma IntIs(xlen: nat, u: nat)
    requires (xlen == 32 || xlen == 64) && u < Size(xlen)
    ensures Int(Size(xlen), u) == Signed(Size(xlen), u)
    ensures Int(Size(xlen), u) == if u < Pow2(xlen - 1) then u else u - Pow2(xlen)
    ensures Int(Size(xlen), u) == 0 <==> u == 0
  {
    hide Pow2;
    SizeIs(xlen);
  }

  lemma ShiftsCompute(xlen: nat, op: AluOp, a: nat, b: nat)
    requires (xlen == 32 || xlen == 64) && a < Size(xlen) && b < Size(xlen)
    requires op.SLL? || op.SRL? || op.SRA?
    ensures Computes(xlen, op, a, b, AluAt(Size(xlen), xlen, op, a, b))
  {
    hide Pow2, Bit, Int, Signed, Size, Shr;
    var m, n := Size(xlen), b % xlen;
    SizeIs(xlen);
    IntIs(xlen, a);
    RightShift(xlen, a, n, 0);
    ShrBound(a, n);
    WrapSmall(m, Shr(a, n));
    forall i | 0 <= i < xlen
      ensures Bit(AluAt(m, xlen, SLL, a, b), i) == (n <= i && Bit(a, i - n))
      ensures Bit(AluAt(m, xlen, SRL, a, b), i) == (i + n < xlen && Bit(a, i + n))
      ensures Bit(AluAt(m, xlen, SRA, a, b), i) == Bit(a, if i + n < xlen then i + n else xlen - 1)
    {
      LeftShift(xlen, a, n, i);
      RightShift(xlen, a, n, i);
      ArithmeticShift(xlen, a, n, i);
    }
  }

  lemma PlainCompute(xlen: nat, op: AluOp, a: nat, b: nat)
    requires (xlen == 32 || xlen == 64) && a < Size(xlen) && b < Size(xlen)
    requires op in {ADD, SUB, SLT, SLTU, XOR, OR, AND}
    ensures Computes(xlen, op, a, b, AluAt(Size(xlen), xlen, op, a, b))
  {
    hide Pow2, Bit, Int, Signed, Size, And, Or, Xor;
    SizeIs(xlen);
    IntIs(xlen, a);
    IntIs(xlen, b);
    BitwiseBound(a, b, xlen);
    forall i | 0 <= i < xlen
      ensures Bit(And(a, b), i) == (Bit(a, i) && Bit(b, i))
      ensures Bit(Or(a, b), i) == (Bit(a, i) || Bit(b, i))
      ensures Bit(Xor(a, b), i) == (Bit(a, i) != Bit(b, i))
    {
      BitwiseMeaning(a, b, i);
    }
  }

  lemma HighSmall(m: nat, a: nat, b: nat)
    requires a < m && b < m
    ensures 0 <= a * b / m < m
  {
    var q := a * b / m;
    assert a * b == q * m + a * b % m;
    MulLeft(a, m - 1, b);
    if q >= m {
      MulLeft(b, q, m);
    } else if q < 0 {
      MulAtLeast(-q, m);
    }
  }

  lemma ProductsCompute(xlen: nat, op: AluOp, a: nat, b: nat)
    requires (xlen == 32 || xlen == 64) && a < Size(xlen) && b < Size(xlen)
    requires op in {MUL, MULH, MULHSU, MULHU}
    ensures Computes(xlen, op, a, b, AluAt(Size(xlen), xlen, op, a, b))
  {
    hide Pow2, Bit, Int, Signed, Size;
    SizeIs(xlen);
    IntIs(xlen, a);
    IntIs(xlen, b);
    HighSmall(Size(xlen), a, b);
    WrapSmall(Size(xlen), a * b / Size(xlen));
  }

  lemma Magnitudes(x: int, y: int)
    requires y != 0
    ensures Divided(x, y) == TruncDiv(x, y) && Rest(x, y) == TruncRem(x, y)
  {
    var p, q := Abs(x), Abs(y);
    assert p == q * (p / q) + p % q;
    SignedProducts(q, p / q);
  }

  lemma UnsignedQuotient(a: nat, b: nat)
    requires b > 0
    ensures Divided(a, b) == a / b && Rest(a, b) == a % b && 0 <= a / b <= a
  {
    assert a == a / b * b + a % b;
    if a / b < 0 {
      MulAtLeast(-(a / b), b);
    } else {
      MulLeft(1, b, a / b);
    }
  }

  lemma DivisionsCompute(xlen: nat, op: AluOp, a: nat, b: nat)
    requires (xlen == 32 || xlen == 64) && a < Size(xlen) && b < Size(xlen)
    requires op in {DIV, DIVU, REM, REMU}
    ensures Computes(xlen, op, a, b, AluAt(Size(xlen), xlen, op, a, b))
  {
    hide Pow2, Bit, Int, Signed, Size, TruncDiv, TruncRem, Divided, Rest;
    var m, x, y := Size(xlen), Int(Size(xlen), a), Int(Size(xlen), b);
    SizeIs(xlen);
    IntIs(xlen, a);
    IntIs(xlen, b);
    if b == 0 {
      DivModUnique(-1, m, -1, m - 1);
      WrapSmall(m, a);
      WrapSigned(m, a);
    } else {
      Magnitudes(x, y);
      Magnitudes(a, b);
      UnsignedQuotient(a, b);
      WrapSmall(m, a / b);
      WrapSmall(m, a % b);
    }
  }

  /** All operations, on registers and on low words. */
  lemma OperationComputes(xlen: nat, op: AluOp, a: nat, b: nat)
    requires (xlen == 32 || xlen == 64) && a < Size(xlen) && b < Size(xlen) && !op.NOALU?
    ensures Computes(xlen, op, a, b, AluAt(Size(xlen), xlen, op, a, b))
  {
    hide Computes, Size, AluAt;
    if op.SLL? || op.SRL? || op.SRA? {
      ShiftsCompute(xlen, op, a, b);
    } else if op in {MUL, MULH, MULHSU, MULHU} {
      ProductsCompute(xlen, op, a, b);
    } else if op in {DIV, DIVU, REM, REMU} {
      DivisionsCompute(xlen, op, a, b);
    } else {
      PlainCompute(xlen, op, a, b);
    }
  }
}

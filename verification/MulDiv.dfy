/** The M-extension arithmetic of inc/mul.h: wide products from 32-bit limbs with
    signed corrections, and truncating division with the special cases. */
module MulDiv {
  import opened Words
  import opened Arch

  // ------------------------------------------------------------ C's / and %

  /** Division that truncates toward zero, as C's `/`. */
  function TruncDiv(a: int, b: int): int
    requires b != 0
  {
    if a >= 0 then (if b > 0 then a / b else -(a / -b))
    else if b > 0 then -(-a / b)
    else -a / -b
  }

  function TruncRem(a: int, b: int): int
    requires b != 0
  {
    a - b * TruncDiv(a, b)
  }

  predicate IsTruncating(a: int, b: int, q: int, r: int)
  {
    && a == b * q + r
    && -(if b < 0 then -b else b) < r < (if b < 0 then -b else b)
    && (r == 0 || (r < 0 <==> a < 0))
  }

  lemma SignedProducts(d: int, q: int)
    ensures d * -q == -(d * q) && -d * q == -(d * q) && -d * -q == d * q
  {
  }

  lemma TruncCases(a: int, b: int, p: int, q: int, r: int)
    requires b != 0 && 0 <= r < (if b < 0 then -b else b) && (if a < 0 then -a else a) == p + r
    requires q == (if a < 0 then -a else a) / (if b < 0 then -b else b)
    requires if b < 0 then b * q == -p && b * -q == p else b * q == p && b * -q == -p
    ensures IsTruncating(a, b, TruncDiv(a, b), TruncRem(a, b))
  {
    if (a < 0) == (b < 0) {
      assert TruncDiv(a, b) == q;
    } else {
      assert TruncDiv(a, b) == -q;
    }
  }

  lemma TruncSpec(a: int, b: int)
    requires b != 0
    ensures IsTruncating(a, b, TruncDiv(a, b), TruncRem(a, b))
  {
    var x, d := if a < 0 then -a else a, if b < 0 then -b else b;
    var q, r := x / d, x % d;
    assert x == d * q + r && 0 <= r < d;
    SignedProducts(d, q);
    TruncCases(a, b, d * q, q, r);
  }

  lemma Negated(k: int, d: int)
    ensures -k * d == -(k * d)
  {
  }

  /** No multiple of d but zero is smaller than d. */
  lemma SmallMultiple(k: int, d: int, p: int)
    requires p == k * d && -d < p < d
    ensures k == 0
  {
    Negated(k, d);
    if k >= 1 {
      MulAtLeast(k, d);
    } else if k <= -1 {
      MulAtLeast(-k, d);
    }
  }

  lemma Distribute(b: int, q: int, q0: int)
    ensures (q - q0) * b == b * q - b * q0
    ensures (q - q0) * -b == -(b * q - b * q0)
  {
  }

  lemma SameTruncation(a: int, b: int, p: int, p0: int, q: int, r: int, q0: int, r0: int)
    requires b != 0 && p == b * q && p0 == b * q0
    requires IsTruncating(a, b, q, r) && IsTruncating(a, b, q0, r0)
    ensures q == q0 && r == r0
  {
    Distribute(b, q, q0);
    assert p + r == a == p0 + r0;
    SmallMultiple(q - q0, if b < 0 then -b else b, if b < 0 then r - r0 else r0 - r);
  }

  /** No other pair satisfies the truncating contract. */
  lemma TruncUnique(a: int, b: int, q: int, r: int)
    requires b != 0 && IsTruncating(a, b, q, r)
    ensures q == TruncDiv(a, b) && r == TruncRem(a, b)
  {
    hide TruncDiv, TruncRem;
    TruncSpec(a, b);
    var q0, r0 := TruncDiv(a, b), TruncRem(a, b);
    SameTruncation(a, b, b * q, b * q0, q, r, q0, r0);
  }

  /** Division as section 7.2 defines it: by zero, all ones and the dividend. */
  function Quotient(a: int, b: int): int {
    if b == 0 then -1 else TruncDiv(a, b)
  }

  function Remainder(a: int, b: int): int {
    if b == 0 then a else TruncRem(a, b)
  }

  // ---------------------------------------------------------------- products

  function RvMul(m: int, a: nat, b: nat): nat
    requires 0 < m
  {
    Wrap(m, a * b)
  }

  /** The product of two 32-bit limbs, computed in 64 bits. */
  function LimbMul(x: nat, y: nat): nat
  {
    Wrap(TWO64, x * y)
  }

  /** The carry chain of the limb products; every addition wraps at 64 bits. */
  function CarryChain(p00: nat, p10: nat, p01: nat, p11: nat): nat
  {
    var cross := Wrap(TWO64, p10 + p00 / TWO32);
    Wrap(TWO64, Wrap(TWO64, p11 + cross / TWO32) + Wrap(TWO64, p01 + cross % TWO32) / TWO32)
  }

  /** The high 64 bits of a 64x64-bit product, built from 32-bit limbs. */
  function Mulhudw(a: nat, b: nat): nat
  {
    var aLo, aHi := a % TWO32, a / TWO32;
    var bLo, bHi := b % TWO32, b / TWO32;
    CarryChain(LimbMul(aLo, bLo), LimbMul(aHi, bLo), LimbMul(aLo, bHi), LimbMul(aHi, bHi))
  }

  /** A product of factors up to c is at most c squared. */
  lemma ProductAtMost(x: int, y: int, p: int, c: int, cc: int)
    requires 0 <= x <= c && 0 <= y <= c && p == x * y && cc == c * c
    ensures 0 <= p <= cc
  {
    MulLeft(x, c, y);
    MulLeft(y, c, c);
    MulLeft(0, x, y);
  }

  lemma LimbMulExact(x: nat, y: nat)
    requires x < TWO32 && y < TWO32
    ensures LimbMul(x, y) == x * y <= (TWO32 - 1) * (TWO32 - 1)
  {
    ProductAtMost(x, y, x * y, TWO32 - 1, (TWO32 - 1) * (TWO32 - 1));
    WrapSmall(TWO64, x * y);
  }

  lemma LimbExpansion(a: int, b: int, aHi: int, aLo: int, bHi: int, bLo: int)
    requires a == aHi * TWO32 + aLo && b == bHi * TWO32 + bLo
    ensures a * b == aHi * bHi * TWO64 + (aHi * bLo + aLo * bHi) * TWO32 + aLo * bLo
  {
    assert a * b == aHi * TWO32 * b + aLo * b;
    assert aHi * b == aHi * bHi * TWO32 + aHi * bLo;
    assert aLo * b == aLo * bHi * TWO32 + aLo * bLo;
  }

  /** On exact limb products no addition of the chain overflows. */
  lemma CarryChainNoOverflow(p00: nat, p10: nat, p01: nat, p11: nat)
    requires p00 <= (TWO32 - 1) * (TWO32 - 1) && p10 <= (TWO32 - 1) * (TWO32 - 1)
    requires p01 <= (TWO32 - 1) * (TWO32 - 1) && p11 <= (TWO32 - 1) * (TWO32 - 1)
    ensures var cross := p10 + p00 / TWO32;
            var mid := p01 + cross % TWO32;
            && cross < TWO64 && mid < TWO64 && p11 + cross / TWO32 + mid / TWO32 < TWO64
            && CarryChain(p00, p10, p01, p11) == p11 + cross / TWO32 + mid / TWO32
  {
    var cross := p10 + p00 / TWO32;
    assert p00 / TWO32 <= TWO32 - 2;
    WrapSmall(TWO64, cross);
    var mid := p01 + cross % TWO32;
    WrapSmall(TWO64, mid);
    var hi := p11 + cross / TWO32;
    assert cross / TWO32 <= TWO32 - 1 && mid / TWO32 <= TWO32 - 1;
    WrapSmall(TWO64, hi);
    WrapSmall(TWO64, hi + mid / TWO32);
  }

  /** The chain yields the high half of the combined product. */
  lemma CarryChainExact(p00: nat, p10: nat, p01: nat, p11: nat)
    requires p00 <= (TWO32 - 1) * (TWO32 - 1) && p10 <= (TWO32 - 1) * (TWO32 - 1)
    requires p01 <= (TWO32 - 1) * (TWO32 - 1) && p11 <= (TWO32 - 1) * (TWO32 - 1)
    ensures CarryChain(p00, p10, p01, p11) == (p11 * TWO64 + (p10 + p01) * TWO32 + p00) / TWO64 < TWO64
  {
    CarryChainNoOverflow(p00, p10, p01, p11);
    var cross := p10 + p00 / TWO32;
    var mid := p01 + cross % TWO32;
    var hi := CarryChain(p00, p10, p01, p11);
    var lo := mid % TWO32 * TWO32 + p00 % TWO32;
    assert cross == cross / TWO32 * TWO32 + cross % TWO32;
    assert mid == mid / TWO32 * TWO32 + mid % TWO32;
    assert p00 == p00 / TWO32 * TWO32 + p00 % TWO32;
    DivModUnique(p11 * TWO64 + (p10 + p01) * TWO32 + p00, TWO64, hi, lo);
  }

  /** Mulhudw is the exact high half of the product. */
  lemma MulhudwExact(a: nat, b: nat)
    requires a < TWO64 && b < TWO64
    ensures Mulhudw(a, b) == a * b / TWO64 < TWO64
  {
    var aLo, aHi := a % TWO32, a / TWO32;
    var bLo, bHi := b % TWO32, b / TWO32;
    LimbMulExact(aLo, bLo);
    LimbMulExact(aHi, bLo);
    LimbMulExact(aLo, bHi);
    LimbMulExact(aHi, bHi);
    LimbExpansion(a, b, aHi, aLo, bHi, bLo);
    CarryChainExact(aLo * bLo, aHi * bLo, aLo * bHi, aHi * bHi);
  }

  // -------------------------------------------------------- high products

  /** `res -= x` on a signed 64-bit accumulator, wrapping. */
  function SubtractWrapped(res: int, x: int): int
  {
    Signed(TWO64, Wrap(TWO64, res - x))
  }

  /** MULH, MULHSU and MULHU of the portable 64-bit build: the unsigned high half,
      corrected for each negative operand. */
  function MulhPortable(a: int, b: int): int
  {
    var res := Signed(TWO64, Mulhudw(Wrap(TWO64, a), Wrap(TWO64, b)));
    var res' := if a < 0 then SubtractWrapped(res, b) else res;
    if b < 0 then SubtractWrapped(res', a) else res'
  }

  function MulhsuPortable(a: int, b: nat): int
  {
    var res := Signed(TWO64, Mulhudw(Wrap(TWO64, a), b));
    if a < 0 then SubtractWrapped(res, b) else res
  }

  /** The high half taken from a product of twice the width: the 32-bit build with
      64-bit intermediates, and the 64-bit build with 128-bit ones. */
  function MulhWide(m: int, a: int, b: int): nat
    requires 0 < m
  {
    Wrap(m, Wrap(m * m, a * b) / m)
  }

  lemma WrapSignedPlus(m: int, u: int, x: int)
    requires 0 < m
    ensures Wrap(m, Signed(m, u) + x) == Wrap(m, u + x)
  {
    WrapPlus(m, u + x, -1);
  }

  lemma Expand(a: int, b: int, x: int, y: int)
    ensures (a + x) * (b + y) == a * b + a * y + x * b + x * y
  {
  }

  lemma CorrectedProduct(m: int, a: int, b: int, sa: int, sb: int)
    ensures (a + sa * m) * (b + sb * m) == a * b + (sa * b + sb * a + sa * sb * m) * m
  {
    var x, y := sa * m, sb * m;
    Expand(a, b, x, y);
    assert a * y == sb * a * m && x * b == sa * b * m && x * y == sa * sb * m * m;
  }

  /** The unsigned high half of two wrapped operands exceeds the signed one by the
      other operand for each negative one, modulo 2^64. */
  lemma UnsignedHighHalf(m: int, a: int, b: int, sa: int, sb: int)
    requires 0 < m
    ensures (a + sa * m) * (b + sb * m) / m == a * b / m + sa * b + sb * a + sa * sb * m
  {
    var k := sa * b + sb * a + sa * sb * m;
    CorrectedProduct(m, a, b, sa, sb);
    DivModUnique(a * b + k * m, m, a * b / m + k, a * b % m);
  }

  lemma SubtractMeaning(res: int, h: int, x: int)
    requires Wrap(TWO64, res) == Wrap(TWO64, h)
    ensures Wrap(TWO64, SubtractWrapped(res, x)) == Wrap(TWO64, h - x)
  {
    WrapSigned(TWO64, Wrap(TWO64, res - x));
    var k := res / TWO64 - h / TWO64;
    assert res == h + k * TWO64;
    WrapPlus(TWO64, h - x, k);
  }

  predicate IsSigned(m: int, a: int)
  {
    -m <= 2 * a < m
  }

  lemma SignedInRange(m: int, u: int)
    requires 0 <= u < m
    ensures IsSigned(m, Signed(m, u))
  {
  }

  /** Each implementation of the high product gives floor(a * b / 2^64) as a word. */
  lemma MulhPortableExact(a: int, b: int)
    requires IsSigned(TWO64, a) && IsSigned(TWO64, b)
    ensures Wrap(TWO64, MulhPortable(a, b)) == Wrap(TWO64, a * b / TWO64)
  {
    var sa, sb := if a < 0 then 1 else 0, if b < 0 then 1 else 0;
    var ua, ub := Wrap(TWO64, a), Wrap(TWO64, b);
    DivModUnique(a, TWO64, -sa, a + sa * TWO64);
    DivModUnique(b, TWO64, -sb, b + sb * TWO64);
    MulhudwExact(ua, ub);
    UnsignedHighHalf(TWO64, a, b, sa, sb);
    var h := Mulhudw(ua, ub);
    var res := Signed(TWO64, h);
    WrapSigned(TWO64, h);
    WrapSmall(TWO64, h);
    var h', res' := h - sa * b, if a < 0 then SubtractWrapped(res, b) else res;
    SubtractMeaning(res, h, b);
    SubtractMeaning(res', h', a);
    WrapPlus(TWO64, a * b / TWO64, sa * sb);
  }

  lemma MulhsuPortableExact(a: int, b: nat)
    requires IsSigned(TWO64, a) && b < TWO64
    ensures Wrap(TWO64, MulhsuPortable(a, b)) == Wrap(TWO64, a * b / TWO64)
  {
    var sa := if a < 0 then 1 else 0;
    var ua := Wrap(TWO64, a);
    DivModUnique(a, TWO64, -sa, a + sa * TWO64);
    MulhudwExact(ua, b);
    UnsignedHighHalf(TWO64, a, b, sa, 0);
    var h := Mulhudw(ua, b);
    WrapSigned(TWO64, h);
    WrapSmall(TWO64, h);
    SubtractMeaning(Signed(TWO64, h), h, b);
  }

  lemma MulhWideExact(m: int, a: int, b: int)
    requires 0 < m
    ensures MulhWide(m, a, b) == Wrap(m, a * b / m)
  {
    var x := a * b;
    MixedRadix(x, m, m);
    DivModUnique(x % (m * m), m, x / m % m, x % m);
    WrapSmall(m, x / m % m);
  }

  /** MUL and the matching high product rebuild the whole double-width product. */
  lemma ProductRebuilt(m: int, x: int)
    requires 0 < m
    ensures Wrap(m, x / m) * m + Wrap(m, x) == Wrap(m * m, x)
  {
    MixedRadix(x, m, m);
  }

  // ---------------------------------------------------------------- division

  function RvDiv(m: int, a: int, b: int): int
  {
    if b == 0 then -1
    else if 2 * a == -m && b == -1 then a
    else TruncDiv(a, b)
  }

  function RvRem(m: int, a: int, b: int): int
  {
    if b == 0 then a
    else if 2 * a == -m && b == -1 then 0
    else TruncRem(a, b)
  }

  function RvDivu(m: int, a: nat, b: nat): int
  {
    if b == 0 then m - 1 else a / b
  }

  function RvRemu(m: int, a: nat, b: nat): int
  {
    if b == 0 then a else a % b
  }

  lemma QuotientBound(a: int, b: int)
    requires b != 0
    ensures var q := TruncDiv(a, b);
            var x := if a < 0 then -a else a;
            && -x <= q <= x
            && (a > 0 && q == -x ==> b < 0)
            && (a < 0 && q == x ==> b == -1)
            && (a < 0 ==> -x <= q)
  {
    var x, d := if a < 0 then -a else a, if b < 0 then -b else b;
    var q := x / d;
    assert x == q * d + x % d;
    assert 0 <= q <= x by {
      if q < 0 {
        MulAtLeast(-q, d);
      } else {
        MulLeft(1, d, q);
      }
    }
    if d >= 2 && x > 0 {
      MulLeft(2, d, q);
    }
  }

  /** The division contract of section 7.2 at any even modulus m: quotient and
      remainder always rebuild the dividend modulo m, and outside division by zero and
      overflow they are the truncating pair. */
  lemma DivisionContract(m: int, a: int, b: int)
    requires 2 <= m && IsSigned(m, a) && IsSigned(m, b)
    ensures Wrap(m, b * RvDiv(m, a, b) + RvRem(m, a, b)) == Wrap(m, a)
    ensures b != 0 && !(2 * a == -m && b == -1) ==>
              IsTruncating(a, b, RvDiv(m, a, b), RvRem(m, a, b))
    ensures b == 0 ==> RvDiv(m, a, b) == -1 && RvRem(m, a, b) == a
    ensures IsSigned(m, RvDiv(m, a, b)) && IsSigned(m, RvRem(m, a, b))
  {
    if b == 0 {
    } else if 2 * a == -m && b == -1 {
      WrapPlus(m, a, 1);
    } else {
      TruncSpec(a, b);
      QuotientBound(a, b);
    }
  }

  lemma DivisionContractUnsigned(m: int, a: nat, b: nat)
    requires a < m && b < m
    ensures Wrap(m, b * RvDivu(m, a, b) + RvRemu(m, a, b)) == Wrap(m, a)
    ensures b != 0 ==> a == b * RvDivu(m, a, b) + RvRemu(m, a, b) && 0 <= RvRemu(m, a, b) < b
    ensures b == 0 ==> RvDivu(m, a, b) == m - 1 && RvRemu(m, a, b) == a
    ensures 0 <= RvDivu(m, a, b) < m && 0 <= RvRemu(m, a, b) < m
  {
    if b != 0 {
      QuotientBound(a, b);
      assert a == b * (a / b) + a % b;
    }
  }
}

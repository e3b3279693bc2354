/** Fixed-width words as mathematical integers: powers of two, the bitwise operators
    of C on unsigned values, two's-complement conversions and the division facts
    that the other modules rest on. */
module Words {

  // ---------------------------------------------------------------- division

  lemma MulAtLeast(k: int, d: int)
    requires 1 <= k && 0 <= d
    ensures d <= k * d
  {
  }

  lemma DivModUnique(x: int, d: int, q: int, r: int)
    requires 0 <= r < d && x == q * d + r
    ensures x / d == q && x % d == r
  {
    var q' := x / d;
    var k := q - q';
    assert k * d == x % d - r by {
      assert x == q' * d + x % d;
      assert k * d == q * d - q' * d;
    }
    if k >= 1 {
      MulAtLeast(k, d);
    } else if k <= -1 {
      MulAtLeast(-k, d);
    }
  }

  /** x in the mixed radix a, b: x == (q' * b + r') * a + r. */
  lemma MixedRadix(x: int, a: int, b: int)
    requires 0 < a && 0 < b
    ensures 0 < a * b
    ensures x / (a * b) == x / a / b
    ensures x % (a * b) == (x / a % b) * a + x % a
  {
    var q, r := x / a, x % a;
    var q', r' := q / b, q % b;
    assert q * a == q' * (a * b) + r' * a by {
      assert q == q' * b + r';
      assert (q' * b + r') * a == q' * b * a + r' * a;
      assert q' * b * a == q' * (a * b);
    }
    assert 0 <= r' * a && r' * a + a <= a * b by {
      MulAtLeast(b - r', a);
      assert (b - r') * a == b * a - r' * a;
    }
    DivModUnique(x, a * b, q', r' * a + r);
  }

  lemma ModShift(x: int, k: int, m: int)
    requires 0 < m
    ensures (x + k * m) % m == x % m
  {
    DivModUnique(x + k * m, m, x / m + k, x % m);
  }

  // ---------------------------------------------------------- powers of two

  function Pow2(n: nat): (p: nat)
    ensures p > 0
  {
    if n == 0 then 1 else 2 * Pow2(n - 1)
  }

  lemma {:induction false} Pow2Add(a: nat, b: nat)
    ensures Pow2(a + b) == Pow2(a) * Pow2(b)
  {
    if b == 0 {
    } else {
      Pow2Add(a, b - 1);
      assert Pow2(a + b) == 2 * Pow2(a + (b - 1));
    }
  }

  lemma Pow2Less(a: nat, b: nat)
    requires a < b
    ensures 2 * Pow2(a) <= Pow2(b)
  {
    Pow2Add(a + 1, b - a - 1);
    assert Pow2(a + 1) * Pow2(b - a - 1) >= Pow2(a + 1);
  }

  lemma Pow2Values()
    ensures Pow2(0) == 0x1 && Pow2(1) == 0x2 && Pow2(2) == 0x4 && Pow2(3) == 0x8
    ensures Pow2(4) == 0x10 && Pow2(5) == 0x20 && Pow2(6) == 0x40 && Pow2(7) == 0x80
    ensures Pow2(8) == 0x100 && Pow2(9) == 0x200 && Pow2(10) == 0x400 && Pow2(11) == 0x800
    ensures Pow2(12) == 0x1000 && Pow2(13) == 0x2000 && Pow2(14) == 0x4000 && Pow2(15) == 0x8000
    ensures Pow2(16) == 0x1_0000 && Pow2(17) == 0x2_0000 && Pow2(18) == 0x4_0000 && Pow2(19) == 0x8_0000
    ensures Pow2(20) == 0x10_0000 && Pow2(21) == 0x20_0000 && Pow2(22) == 0x40_0000 && Pow2(23) == 0x80_0000
    ensures Pow2(24) == 0x100_0000 && Pow2(25) == 0x200_0000 && Pow2(26) == 0x400_0000 && Pow2(27) == 0x800_0000
    ensures Pow2(28) == 0x1000_0000 && Pow2(29) == 0x2000_0000 && Pow2(30) == 0x4000_0000 && Pow2(31) == 0x8000_0000
    ensures Pow2(32) == 0x1_0000_0000
    ensures Pow2(63) == 0x8000_0000_0000_0000 && Pow2(64) == 0x1_0000_0000_0000_0000
  {
    assert Pow2(8) == 0x100;
    Pow2Add(8, 1);
    Pow2Add(8, 2);
    Pow2Add(8, 3);
    Pow2Add(8, 4);
    Pow2Add(8, 5);
    Pow2Add(8, 6);
    Pow2Add(8, 7);
    Pow2Add(8, 8);
    Pow2Add(16, 1);
    Pow2Add(16, 2);
    Pow2Add(16, 3);
    Pow2Add(16, 4);
    Pow2Add(16, 5);
    Pow2Add(16, 6);
    Pow2Add(16, 7);
    Pow2Add(16, 8);
    Pow2Add(16, 9);
    Pow2Add(16, 10);
    Pow2Add(16, 11);
    Pow2Add(16, 12);
    Pow2Add(16, 13);
    Pow2Add(16, 14);
    Pow2Add(16, 15);
    Pow2Add(16, 16);
    Pow2Add(32, 31);
    Pow2Add(32, 32);
  }

  // -------------------------------------------------------- bitwise operators

  function And(a: nat, b: nat): nat
  {
    if a == 0 || b == 0 then 0
    else 2 * And(a / 2, b / 2) + (if a % 2 == 1 && b % 2 == 1 then 1 else 0)
  }

  function Or(a: nat, b: nat): nat
  {
    if a == 0 then b
    else if b == 0 then a
    else 2 * Or(a / 2, b / 2) + (if a % 2 == 1 || b % 2 == 1 then 1 else 0)
  }

  function Xor(a: nat, b: nat): nat
  {
    if a == 0 then b
    else if b == 0 then a
    else 2 * Xor(a / 2, b / 2) + (if a % 2 != b % 2 then 1 else 0)
  }

  /** Bit i of a, the least significant one being bit 0. */
  predicate Bit(a: nat, i: nat)
  {
    if i == 0 then a % 2 == 1 else Bit(a / 2, i - 1)
  }

  lemma {:induction false} BitIsDigit(a: nat, i: nat)
    ensures Bit(a, i) == (a / Pow2(i) % 2 == 1)
  {
    if i == 0 {
    } else {
      BitIsDigit(a / 2, i - 1);
      MixedRadix(a, 2, Pow2(i - 1));
    }
  }

  lemma {:induction false} ZeroBit(i: nat)
    ensures !Bit(0, i)
  {
    if i == 0 {
    } else {
      ZeroBit(i - 1);
    }
  }

  /** The three operators act bit by bit. */
  lemma {:induction false} BitwiseMeaning(a: nat, b: nat, i: nat)
    ensures Bit(And(a, b), i) == (Bit(a, i) && Bit(b, i))
    ensures Bit(Or(a, b), i) == (Bit(a, i) || Bit(b, i))
    ensures Bit(Xor(a, b), i) == (Bit(a, i) != Bit(b, i))
    decreases i
  {
    ZeroBit(i);
    if i == 0 {
    } else {
      BitwiseMeaning(a / 2, b / 2, i - 1);
      assert And(a, b) / 2 == And(a / 2, b / 2);
      assert Or(a, b) / 2 == Or(a / 2, b / 2);
      assert Xor(a, b) / 2 == Xor(a / 2, b / 2);
    }
  }

  lemma Twice(a: int, p: int)
    ensures a * (2 * p) == 2 * (a * p)
  {
  }

  lemma Pow2Double(n: nat)
    requires n > 0
    ensures Pow2(n) == 2 * Pow2(n - 1)
  {
  }

  lemma Pow2Zero()
    ensures Pow2(0) == 1
  {
  }

  lemma Ones(h: int)
    ensures h * 1 == h
  {
  }

  lemma HalfOf(x: nat, y: int, r: nat)
    requires x == 2 * y + r
    ensures x / 2 == y + r / 2
  {
  }

  lemma AndOdd(x: nat, m: nat)
    ensures And(x, 2 * m + 1) == 2 * And(x / 2, m) + x % 2
  {
  }

  lemma {:induction false} AndLow(x: nat, n: nat, q: nat, f: nat)
    requires x == q * Pow2(n) + f && f < Pow2(n)
    ensures And(x, Pow2(n) - 1) == f
  {
    if n == 0 {
    } else {
      var p := Pow2(n - 1);
      Twice(q, p);
      AndLow(x / 2, n - 1, q, f / 2);
      AndOdd(x, p - 1);
    }
  }

  lemma AndEven(x: nat, m: nat)
    ensures And(x, 2 * m) == 2 * And(x / 2, m)
  {
    DivModUnique(2 * m, 2, m, 0);
  }

  /** Masking with n ones at bit k keeps the n-bit field f at bit k and nothing else. */
  lemma {:induction false} AndMask(x: nat, mask: nat, n: nat, k: nat, q: nat, f: nat, r: nat)
    requires x == (q * Pow2(n) + f) * Pow2(k) + r && f < Pow2(n) && r < Pow2(k)
    requires mask == (Pow2(n) - 1) * Pow2(k)
    ensures And(x, mask) == f * Pow2(k)
    decreases k
  {
    hide Pow2, And;
    var h, ones := q * Pow2(n) + f, Pow2(n) - 1;
    if k == 0 {
      Pow2Zero();
      Ones(h);
      Ones(ones);
      Ones(f);
      AndLow(x, n, q, f);
    } else {
      var p := Pow2(k - 1);
      Pow2Double(k);
      Twice(h, p);
      Twice(ones, p);
      Twice(f, p);
      HalfOf(x, h * p, r);
      AndMask(x / 2, mask / 2, n, k - 1, q, f, r / 2);
      AndEven(x, mask / 2);
    }
  }

  lemma OrEven(h: nat, b: nat)
    ensures Or(2 * h, b) == 2 * Or(h, b / 2) + b % 2
  {
  }

  lemma {:induction false} OrCommutes(a: nat, b: nat)
    ensures Or(a, b) == Or(b, a)
  {
    if a != 0 && b != 0 {
      OrCommutes(a / 2, b / 2);
    }
  }

  /** Joining a multiple of 2^k with a value below 2^k adds them. */
  lemma {:induction false} OrDisjoint(hi: nat, a: nat, lo: nat, k: nat)
    requires hi == a * Pow2(k) && lo < Pow2(k)
    ensures Or(hi, lo) == Or(lo, hi) == hi + lo
  {
    if k > 0 {
      Twice(a, Pow2(k - 1));
      OrDisjoint(hi / 2, a, lo / 2, k - 1);
      OrEven(hi / 2, lo);
    }
    OrCommutes(hi, lo);
  }

  /** Masking with all ones but the last clears the last bit. */
  lemma ClearLowBit(x: nat, n: nat)
    requires 0 < n && x < Pow2(n)
    ensures And(x, Pow2(n) - 2) == x - x % 2
  {
    AndLow(x / 2, n - 1, 0, x / 2);
    AndEven(x, Pow2(n - 1) - 1);
  }

  /** The bitwise operators stay within n bits. */
  lemma {:induction false} BitwiseBound(a: nat, b: nat, n: nat)
    requires a < Pow2(n) && b < Pow2(n)
    ensures And(a, b) < Pow2(n) && Or(a, b) < Pow2(n) && Xor(a, b) < Pow2(n)
  {
    if n == 0 {
    } else {
      BitwiseBound(a / 2, b / 2, n - 1);
    }
  }

  /** A logical shift right by n. */
  function Shr(x: nat, n: nat): nat
  {
    if n == 0 then x else Shr(x / 2, n - 1)
  }

  lemma {:induction false} ShrBounds(x: nat, n: nat, p: int)
    requires p == Pow2(n)
    ensures Shr(x, n) * p <= x < Shr(x, n) * p + p
  {
    if n == 0 {
    } else {
      ShrBounds(x / 2, n - 1, Pow2(n - 1));
      Twice(Shr(x, n), Pow2(n - 1));
    }
  }

  lemma MulLeft(a: int, b: int, c: int)
    requires a <= b && 0 <= c
    ensures a * c <= b * c && c * a <= c * b
  {
  }

  lemma ShrBound(x: nat, n: nat)
    ensures Shr(x, n) <= x
  {
    ShrBounds(x, n, Pow2(n));
    MulLeft(1, Pow2(n), Shr(x, n));
  }

  // ---------------------------------------------------------- two's complement

  /** The value of the unsigned word u of modulus m when read as signed. */
  function Signed(m: int, u: int): int
  {
    if 2 * u < m then u else u - m
  }

  /** The word of modulus m that represents x. */
  function Wrap(m: int, x: int): (u: nat)
    requires 0 < m
    ensures u < m
  {
    x % m
  }

  lemma WrapPlus(m: int, x: int, k: int)
    requires 0 < m
    ensures Wrap(m, x + k * m) == Wrap(m, x)
  {
    ModShift(x, k, m);
  }

  lemma WrapSmall(m: int, x: int)
    requires 0 <= x < m
    ensures Wrap(m, x) == x
  {
    DivModUnique(x, m, 0, x);
  }

  lemma WrapSigned(m: int, u: int)
    requires 0 <= u < m
    ensures Wrap(m, Signed(m, u)) == u
  {
    DivModUnique(u, m, 0, u);
    DivModUnique(u - m, m, -1, u);
  }

  lemma SignedWrap(m: int, x: int)
    requires 0 < m && -m <= 2 * x < m
    ensures Signed(m, Wrap(m, x)) == x
  {
    if x >= 0 {
      DivModUnique(x, m, 0, x);
    } else {
      DivModUnique(x, m, -1, x + m);
    }
  }

  // ---------------------------------------------------------------- shifts

  lemma {:induction false} ShrShr(x: nat, a: nat, b: nat)
    ensures Shr(Shr(x, a), b) == Shr(x, a + b)
  {
    if a == 0 {
    } else {
      ShrShr(x / 2, a - 1, b);
    }
  }

  lemma ShrIsQuotient(x: nat, n: nat)
    ensures Shr(x, n) == x / Pow2(n)
  {
    ShrBounds(x, n, Pow2(n));
    DivModUnique(x, Pow2(n), Shr(x, n), x - Shr(x, n) * Pow2(n));
  }

  /** The portable arithmetic shift macro on w-bit words: a logical shift, with
      the vacated bits set when the sign bit was. */
  function SraMacro(w: nat, val: nat, sh: nat): int
    requires sh < w
  {
    var m := Pow2(w);
    if sh == 0 then Signed(m, val)
    else
      var fill := if And(val, Pow2(w - 1)) != 0 then Wrap(m, (m - 1) * Pow2(w - sh)) else 0;
      Signed(m, Or(Shr(val, sh), fill))
  }

  lemma SignBit(w: nat, val: nat)
    requires 0 < w && val < Pow2(w)
    ensures And(val, Pow2(w - 1)) != 0 <==> 2 * val >= Pow2(w)
  {
    var h := Pow2(w - 1);
    if 2 * val >= Pow2(w) {
      AndMask(val, h, 1, w - 1, 0, 1, val - h);
    } else {
      AndMask(val, h, 1, w - 1, 0, 0, val);
    }
  }

  lemma SraNegative(m: int, p: int, t: int, val: int, h: int)
    requires m == t * p && 2 <= p && 1 <= t
    requires h * p <= val < h * p + p && val < m <= 2 * val
    ensures h < t && (val - m) / p == h - t
    ensures Signed(m, m - t + h) == h - t
  {
    if h >= t {
      MulLeft(t, h, p);
    }
    assert (h - t) * p == h * p - t * p;
    DivModUnique(val - m, p, h - t, val - h * p);
    MulLeft(2, p, t);
    if h < 0 {
      MulLeft(h, -1, p);
    }
  }

  lemma SraFill(m: int, p: int, t: int)
    requires m == t * p && 2 <= p && 1 <= t
    ensures (p - 1) * t == m - t
    ensures Wrap(m, (m - 1) * t) == m - t
  {
    assert (p - 1) * t == p * t - t;
    assert (m - 1) * t == m * t - t;
    assert (t - 1) * m == t * m - m;
    MulLeft(1, t, p);
    DivModUnique((m - 1) * t, m, t - 1, m - t);
  }

  lemma SraMacroNegative(w: nat, val: nat, sh: nat)
    requires 0 < sh < w && val < Pow2(w) <= 2 * val
    ensures SraMacro(w, val, sh) == Signed(Pow2(w), Pow2(w) - Pow2(w - sh) + Shr(val, sh))
    ensures Shr(val, sh) < Pow2(w - sh)
  {
    hide Or, And, Shr, Pow2;
    var m, p, t, h := Pow2(w), Pow2(sh), Pow2(w - sh), Shr(val, sh);
    Pow2Add(w - sh, sh);
    Pow2Less(0, sh);
    assert 2 <= p;
    SignBit(w, val);
    ShrBounds(val, sh, p);
    SraNegative(m, p, t, val, h);
    SraFill(m, p, t);
    MulLeft(1, p, t);
    OrDisjoint(m - t, p - 1, h, w - sh);
  }

  lemma SraMacroPositive(w: nat, val: nat, sh: nat)
    requires 0 < sh < w && 2 * val < Pow2(w)
    ensures SraMacro(w, val, sh) == Signed(Pow2(w), Shr(val, sh))
  {
    hide And, Shr, Pow2;
    SignBit(w, val);
    OrCommutes(Shr(val, sh), 0);
  }

  lemma SraMacroZero(w: nat, val: nat)
    requires 0 < w
    ensures SraMacro(w, val, 0) == Signed(Pow2(w), val) / Pow2(0)
  {
    hide Or, And, Shr, Signed;
    assert Pow2(0) == 1;
  }

  lemma SignedOf(m: int, u: int)
    ensures Signed(m, u) == if 2 * u < m then u else u - m
  {
  }

  lemma SraPositive(m: int, p: int, t: int, val: int, h: int)
    requires m == t * p && 1 <= p && 1 <= t && 0 <= h
    requires h * p <= val < h * p + p && 2 * val < m
    ensures val / p == h && Signed(m, h) == h
  {
    DivModUnique(val, p, h, val - h * p);
    MulLeft(1, p, h);
  }

  /** The macro is floor division of the signed value by 2^sh. */
  lemma SraIsFloor(w: nat, val: nat, sh: nat)
    requires sh < w && val < Pow2(w)
    ensures SraMacro(w, val, sh) == Signed(Pow2(w), val) / Pow2(sh)
  {
    hide *;
    var m, p, t, h := Pow2(w), Pow2(sh), Pow2(w - sh), Shr(val, sh);
    if sh == 0 {
      SraMacroZero(w, val);
    } else {
      Pow2Add(w - sh, sh);
      Pow2Less(0, sh);
      ShrBounds(val, sh, p);
      SignedOf(m, val);
      if 2 * val >= m {
        SraMacroNegative(w, val, sh);
        SraNegative(m, p, t, val, h);
      } else {
        SraMacroPositive(w, val, sh);
        SraPositive(m, p, t, val, h);
      }
    }
  }
}

/** Memory as a little-endian byte store: how the joined bytes of inc/cpu.h relate to
    ReadLE and WriteLE, and the laws of the store. */
module Memory {
  import opened Words
  import opened Arch
  import opened Isa
  import opened Semantics

  // ------------------------------------------------- joining and splitting bytes

  function Join2(b1: Byte, b0: Byte): nat {
    Or(b1 * 0x100, b0)
  }

  function Join4(b3: Byte, b2: Byte, b1: Byte, b0: Byte): nat {
    Or(Or(Or(b3 * 0x100_0000, b2 * 0x1_0000), b1 * 0x100), b0)
  }

  function Join8(b7: Byte, b6: Byte, b5: Byte, b4: Byte, b3: Byte, b2: Byte, b1: Byte, b0: Byte): nat {
    Or(Or(Or(Or(Or(Or(Or(b7 * 0x100_0000_0000_0000, b6 * 0x1_0000_0000_0000), b5 * 0x100_0000_0000),
      b4 * 0x1_0000_0000), b3 * 0x100_0000), b2 * 0x1_0000), b1 * 0x100), b0)
  }

  lemma OrByte(hi: nat, lo: nat, a: nat, k: nat, p: int)
    requires p == Pow2(k) && hi == a * 0x100 * p && lo < 0x100 * p
    ensures Or(hi, lo) == hi + lo
  {
    hide Or;
    Pow2Add(k, 8);
    assert Pow2(8) == 0x100;
    OrDisjoint(hi, a, lo, k + 8);
  }

  lemma Join2Sum(b1: Byte, b0: Byte)
    ensures Join2(b1, b0) == b0 + 0x100 * b1
  {
    hide Or, Pow2;
    Pow2Zero();
    OrByte(b1 * 0x100, b0, b1, 0, 1);
  }

  lemma Join4Sum(b3: Byte, b2: Byte, b1: Byte, b0: Byte)
    ensures Join4(b3, b2, b1, b0) == b0 + 0x100 * b1 + 0x1_0000 * b2 + 0x100_0000 * b3
  {
    hide Or, Pow2;
    Pow2Values();
    var h3 := b3 * 0x100_0000;
    var h2 := h3 + b2 * 0x1_0000;
    var h1 := h2 + b1 * 0x100;
    OrByte(h3, b2 * 0x1_0000, b3, 16, 0x1_0000);
    OrByte(h2, b1 * 0x100, 0x100 * b3 + b2, 8, 0x100);
    OrByte(h1, b0, 0x1_0000 * b3 + 0x100 * b2 + b1, 0, 1);
  }

  lemma Join8Sum(b7: Byte, b6: Byte, b5: Byte, b4: Byte, b3: Byte, b2: Byte, b1: Byte, b0: Byte)
    ensures Join8(b7, b6, b5, b4, b3, b2, b1, b0)
            == b0 + 0x100 * b1 + 0x1_0000 * b2 + 0x100_0000 * b3
               + TWO32 * (b4 + 0x100 * b5 + 0x1_0000 * b6 + 0x100_0000 * b7)
  {
    hide Or, Pow2;
    Pow2Values();
    assert Pow2(40) == 0x100_0000_0000 && Pow2(48) == 0x1_0000_0000_0000 by {
      Pow2Add(32, 8);
      Pow2Add(32, 16);
    }
    var c6 := 0x100 * b7 + b6;
    var c5 := 0x100 * c6 + b5;
    var c4 := 0x100 * c5 + b4;
    var c3 := 0x100 * c4 + b3;
    var c2 := 0x100 * c3 + b2;
    var c1 := 0x100 * c2 + b1;
    OrByte(b7 * 0x100_0000_0000_0000, b6 * 0x1_0000_0000_0000, b7, 48, 0x1_0000_0000_0000);
    OrByte(c6 * 0x1_0000_0000_0000, b5 * 0x100_0000_0000, c6, 40, 0x100_0000_0000);
    OrByte(c5 * 0x100_0000_0000, b4 * 0x1_0000_0000, c5, 32, 0x1_0000_0000);
    OrByte(c4 * 0x1_0000_0000, b3 * 0x100_0000, c4, 24, 0x100_0000);
    OrByte(c3 * 0x100_0000, b2 * 0x1_0000, c3, 16, 0x1_0000);
    OrByte(c2 * 0x1_0000, b1 * 0x100, c2, 8, 0x100);
    OrByte(c1 * 0x100, b0, c1, 0, 1);
  }

  lemma ReadOne(mem: seq<Byte>, a: nat)
    requires a + 1 <= |mem|
    ensures mem[a] == ReadLE(mem, a, 1)
  {
    assert ReadLE(mem, a + 1, 0) == 0;
  }

  lemma ReadTwo(mem: seq<Byte>, a: nat)
    requires a + 2 <= |mem|
    ensures Join2(mem[a + 1], mem[a]) == ReadLE(mem, a, 2)
  {
    hide Join2;
    Join2Sum(mem[a + 1], mem[a]);
    assert ReadLE(mem, a + 2, 0) == 0;
    assert ReadLE(mem, a + 1, 1) == mem[a + 1] + 256 * ReadLE(mem, a + 2, 0);
  }

  lemma ReadFour(mem: seq<Byte>, a: nat)
    requires a + 4 <= |mem|
    ensures Join4(mem[a + 3], mem[a + 2], mem[a + 1], mem[a]) == ReadLE(mem, a, 4)
  {
    hide Join4;
    Join4Sum(mem[a + 3], mem[a + 2], mem[a + 1], mem[a]);
    ReadTwo(mem, a + 2);
    Join2Sum(mem[a + 3], mem[a + 2]);
    assert ReadLE(mem, a + 1, 3) == mem[a + 1] + 256 * ReadLE(mem, a + 2, 2);
  }

  lemma ReadEight(mem: seq<Byte>, a: nat)
    requires a + 8 <= |mem|
    ensures Join8(mem[a + 7], mem[a + 6], mem[a + 5], mem[a + 4], mem[a + 3], mem[a + 2], mem[a + 1], mem[a])
            == ReadLE(mem, a, 8)
  {
    hide Join8, Join4;
    Join8Sum(mem[a + 7], mem[a + 6], mem[a + 5], mem[a + 4], mem[a + 3], mem[a + 2], mem[a + 1], mem[a]);
    Join4Sum(mem[a + 7], mem[a + 6], mem[a + 5], mem[a + 4]);
    ReadFour(mem, a + 4);
    assert ReadLE(mem, a, 8) == mem[a] + 256 * ReadLE(mem, a + 1, 7);
    assert ReadLE(mem, a + 1, 7) == mem[a + 1] + 256 * ReadLE(mem, a + 2, 6);
    assert ReadLE(mem, a + 2, 6) == mem[a + 2] + 256 * ReadLE(mem, a + 3, 5);
    assert ReadLE(mem, a + 3, 5) == mem[a + 3] + 256 * ReadLE(mem, a + 4, 4);
  }

  lemma ShrByByte(v: nat)
    ensures Shr(v, 8) == v / 256
  {
    ShrIsQuotient(v, 8);
    assert Pow2(8) == 256;
  }

  /** Byte k of a stored value, as the store computes it: `(uint8_t) (val >> 8 * k)`. */
  lemma {:induction false} StoredByte(v: nat, n: nat, k: nat)
    requires k < n
    ensures BytesOf(v, n)[k] == Shr(v, 8 * k) % 256
  {
    if k == 0 {
    } else {
      StoredByte(v / 256, n - 1, k - 1);
      ShrByByte(v);
      ShrShr(v, 8, 8 * (k - 1));
    }
  }

  // ------------------------------------------------------------ laws of the store

  /** The byte map of a store: the written bytes, and every other byte as it was. */
  lemma WriteByteMap(mem: seq<Byte>, a: nat, v: nat, n: nat, j: nat)
    requires a + n <= |mem| && j < |mem|
    ensures WriteLE(mem, a, v, n)[j] == if a <= j < a + n then Shr(v, 8 * (j - a)) % 256 else mem[j]
  {
    if a <= j < a + n {
      StoredByte(v, n, j - a);
    }
  }

  /** Memory that differs from mem by the bytes of v at a, and only there. */
  lemma ByteWrites(mem: seq<Byte>, mem': seq<Byte>, a: nat, v: nat, n: nat)
    requires 0 < n && a + n <= |mem| == |mem'|
    requires mem'[a] == v % 256
    requires forall k :: 0 < k < n ==> mem'[a + k] == Shr(v, 8 * k) % 256
    requires forall j :: 0 <= j < |mem| && !(a <= j < a + n) ==> mem'[j] == mem[j]
    ensures mem' == WriteLE(mem, a, v, n)
  {
    hide WriteLE;
    forall j | 0 <= j < |mem|
      ensures mem'[j] == WriteLE(mem, a, v, n)[j]
    {
      WriteByteMap(mem, a, v, n, j);
      assert a < j < a + n ==> mem'[a + (j - a)] == Shr(v, 8 * (j - a)) % 256;
    }
  }

  /** A wide store is its byte stores in turn. */
  lemma WriteIsByteWrites(mem: seq<Byte>, a: nat, v: nat, n: nat)
    requires 0 < n && a + n <= |mem|
    ensures WriteLE(mem, a, v, n) == WriteLE(WriteLE(mem, a, v, 1), a + 1, v / 256, n - 1)
  {
    assert BytesOf(v, 1) == [v % 256] + BytesOf(v / 256, 0);
    var once := WriteLE(mem, a, v, 1);
    assert once[..a + 1] == mem[..a] + [v % 256] && once[a + n..] == mem[a + n..];
    assert BytesOf(v, n) == [v % 256] + BytesOf(v / 256, n - 1);
  }

  lemma NextByte(n: nat)
    requires 0 < n
    ensures Pow2(8 * n) == 256 * Pow2(8 * (n - 1))
  {
    hide Pow2;
    Pow2Add(8, 8 * (n - 1));
    Pow2Values();
  }

  lemma Distribute(p: int, x: int)
    ensures 256 * (p * x) == 256 * p * x
  {
  }

  /** An access reads its bytes: low part first, then the rest. */
  lemma {:induction false} ReadAppend(mem: seq<Byte>, a: nat, j: nat, k: nat)
    requires a + j + k <= |mem|
    ensures ReadLE(mem, a, j + k) == ReadLE(mem, a, j) + Pow2(8 * j) * ReadLE(mem, a + j, k)
    decreases j
  {
    hide Pow2;
    if j == 0 {
      Pow2Zero();
    } else {
      ReadAppend(mem, a + 1, j - 1, k);
      NextByte(j);
      Distribute(Pow2(8 * (j - 1)), ReadLE(mem, a + j, k));
    }
  }

  lemma {:induction false} ReadBound(mem: seq<Byte>, a: nat, n: nat)
    requires a + n <= |mem|
    ensures ReadLE(mem, a, n) < Pow2(8 * n)
    decreases n
  {
    hide Pow2;
    if n == 0 {
    } else {
      ReadBound(mem, a + 1, n - 1);
      NextByte(n);
    }
  }

  /** Accesses that see the same bytes read the same value. */
  lemma {:induction false} ReadDepends(mem: seq<Byte>, mem': seq<Byte>, a: nat, n: nat)
    requires a + n <= |mem| && a + n <= |mem'|
    requires forall j :: a <= j < a + n ==> mem[j] == mem'[j]
    ensures ReadLE(mem, a, n) == ReadLE(mem', a, n)
    decreases n
  {
    if n == 0 {
    } else {
      ReadDepends(mem, mem', a + 1, n - 1);
    }
  }

  /** An access that a store does not touch is unchanged by it. */
  lemma ReadFrame(mem: seq<Byte>, a: nat, v: nat, n: nat, b: nat, k: nat)
    requires a + n <= |mem| && b + k <= |mem| && (b + k <= a || a + n <= b)
    ensures ReadLE(WriteLE(mem, a, v, n), b, k) == ReadLE(mem, b, k)
  {
    ReadDepends(mem, WriteLE(mem, a, v, n), b, k);
  }

  lemma ReadBackStep(v: nat, n: nat)
    requires 0 < n
    ensures v % 256 + 256 * (v / 256 % Pow2(8 * (n - 1))) == v % Pow2(8 * n)
  {
    hide Pow2;
    MixedRadix(v, 256, Pow2(8 * (n - 1)));
    NextByte(n);
  }

  /** What was stored is read back, cut to the width of the store. */
  lemma {:induction false} ReadBack(mem: seq<Byte>, a: nat, v: nat, n: nat)
    requires a + n <= |mem|
    ensures ReadLE(WriteLE(mem, a, v, n), a, n) == v % Pow2(8 * n)
    decreases n
  {
    if n == 0 {
      assert Pow2(0) == 1;
    } else {
      var mem' := WriteLE(mem, a, v, n);
      WriteIsByteWrites(mem, a, v, n);
      ReadBack(WriteLE(mem, a, v, 1), a + 1, v / 256, n - 1);
      assert BytesOf(v, n)[0] == v % 256;
      assert mem'[a] == v % 256;
      ReadBackStep(v, n);
    }
  }

  function OverlapValue(mem: seq<Byte>, a: nat, v: nat, n: nat, b: nat, k: nat): nat
    requires b + k <= |mem|
    decreases k
  {
    if k == 0 then 0
    else (if a <= b < a + n then Shr(v, 8 * (b - a)) % 256 else mem[b]) + 256 * OverlapValue(mem, a, v, n, b + 1, k - 1)
  }

  /** Any later access sees, byte by byte, the stored byte where it overlaps the store
      and the old byte elsewhere; b and a may be at any distance and the widths differ. */
  lemma {:induction false} OverlappingRead(mem: seq<Byte>, a: nat, v: nat, n: nat, b: nat, k: nat)
    requires a + n <= |mem| && b + k <= |mem|
    ensures ReadLE(WriteLE(mem, a, v, n), b, k) == OverlapValue(mem, a, v, n, b, k)
    decreases k
  {
    if k == 0 {
    } else {
      WriteByteMap(mem, a, v, n, b);
      OverlappingRead(mem, a, v, n, b + 1, k - 1);
    }
  }

  /** Writing back what was read rewrites the same bytes. */
  lemma {:induction false} BytesOfRead(mem: seq<Byte>, a: nat, n: nat)
    requires a + n <= |mem|
    ensures BytesOf(ReadLE(mem, a, n), n) == mem[a..a + n]
    decreases n
  {
    if n == 0 {
    } else {
      var rest := ReadLE(mem, a + 1, n - 1);
      BytesOfRead(mem, a + 1, n - 1);
      DivModUnique(mem[a] + 256 * rest, 256, rest, mem[a]);
      assert mem[a..a + n] == [mem[a]] + mem[a + 1..a + n];
    }
  }

  /** The bytes of a value do not depend on what lies above them. */
  lemma TimesByte(q: int, p: nat, p': nat)
    requires p' == 256 * p
    ensures q * p' == 256 * (q * p)
  {
  }

  lemma ByteBelow(x: nat, y: nat, k: int)
    requires y == x + 256 * k
    ensures y % 256 == x % 256 && y / 256 == x / 256 + k
  {
    DivModUnique(y, 256, x / 256 + k, x % 256);
  }

  lemma {:induction false} BytesOfMod(x: int, q: int, n: nat)
    requires 0 <= x && 0 <= x + q * Pow2(8 * n)
    ensures BytesOf(x + q * Pow2(8 * n), n) == BytesOf(x, n)
  {
    hide Pow2;
    if n == 0 {
    } else {
      var p, y := Pow2(8 * (n - 1)), x + q * Pow2(8 * n);
      NextByte(n);
      TimesByte(q, p, Pow2(8 * n));
      ByteBelow(x, y, q * p);
      BytesOfMod(x / 256, q, n - 1);
    }
  }

  // ------------------------------------------------------------- bus accesses

  lemma PeekSame(s: State, s': State, addr: nat, n: nat)
    requires s.ram == s'.ram && s.rom == s'.rom
    ensures Mapped(addr, n) ==> Peek(s, addr, n) == Peek(s', addr, n)
  {
    hide ReadLE;
  }

  lemma PeekBound(s: State, addr: nat, n: nat)
    requires Mapped(addr, n)
    ensures Peek(s, addr, n) < Pow2(8 * n)
  {
    hide ReadLE, Pow2;
    if InRam(addr, n) {
      ReadBound(s.ram, addr - RAM_START, n);
    } else {
      ReadBound(s.rom, addr, n);
    }
  }

  /** A loaded value fits its register. */
  lemma ExtendBound(cfg: Config, mem: MemOp, s: State, addr: nat)
    requires mem == D || mem == WU ==> cfg.rv64
    ensures mem != NOMEM && Mapped(addr, Bytes(mem)) ==>
              Extend(cfg.Modulus(), mem, Peek(s, addr, Bytes(mem))) < cfg.Modulus()
  {
    hide Peek, Wrap, Signed, Pow2;
    if mem != NOMEM && Mapped(addr, Bytes(mem)) {
      PeekBound(s, addr, Bytes(mem));
      Pow2Values();
    }
  }

  /** A load from the address of the store before it, at the same width, gets the stored
      register cut to that width and extended again. */
  lemma StoreThenLoad(cfg: Config, s: State, store: MemOp, load: MemOp, rs1: Reg, rs2: Reg, rd: Reg, imm: int,
                      cycles: nat, instructions: nat, cycles': nat, instructions': nat)
    requires store != NOMEM && load != NOMEM && Bytes(load) == Bytes(store) && rd != 0
    requires InRam(Address(cfg, s, rs1, imm), Bytes(store))
    ensures var s1 := Exec(cfg, Store(store, rs1, rs2, imm), s, cycles, instructions);
            var s2 := Exec(cfg, Load(load, rd, rs1, imm), s1, cycles', instructions');
            s2.regs[rd] == Extend(cfg.Modulus(), load, s.regs[rs2] % Pow2(8 * Bytes(store)))
  {
    hide ReadLE, WriteLE, Pow2, Extend, Wrap;
    var addr := Address(cfg, s, rs1, imm);
    ReadBack(s.ram, addr - RAM_START, s.regs[rs2], Bytes(store));
    var s1 := Exec(cfg, Store(store, rs1, rs2, imm), s, cycles, instructions);
    assert s1.ram == WriteLE(s.ram, addr - RAM_START, s.regs[rs2], Bytes(store));
    assert Address(cfg, s1, rs1, imm) == addr;
  }
}

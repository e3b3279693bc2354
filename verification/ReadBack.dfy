/** Reading printed integers back: the digits that print_integer writes in a base, read in
    that base, give the value modulo the base to the 32nd, the size of its buffer. */
module ReadBack {
  import opened Arch
  import opened Words
  import opened Output
  import opened IntegerText
  import C99

  function Power(base: nat, n: nat): nat {
    if n == 0 then 1 else base * Power(base, n - 1)
  }

  /** What a digit character stands for. */
  function DigitValue(c: char): int {
    if '0' <= c <= '9' then c as int - '0' as int
    else if 'a' <= c <= 'f' then c as int - 'a' as int + 10
    else if 'A' <= c <= 'F' then c as int - 'A' as int + 10
    else -1
  }

  /** The number that a text of digits denotes, most significant digit first. */
  function Read(s: seq<char>, base: nat): int {
    if |s| == 0 then 0 else Read(s[..|s| - 1], base) * base + DigitValue(s[|s| - 1])
  }

  lemma ReadNothing(t: seq<char>, base: nat)
    requires t == []
    ensures Read(t, base) == 0
  {
  }

  lemma ReadOneMore(before: seq<char>, c: char, base: nat)
    ensures Read(before + [c], base) == Read(before, base) * base + DigitValue(c)
  {
    assert (before + [c])[..|before|] == before;
  }

  lemma DigitIs(d: nat, upper: bool)
    requires d < 16
    ensures DigitValue(DigitChar(d, upper)) == d
  {
  }

  /** The number that the last digits of v denote. */
  function LastDigits(v: nat, base: nat, count: nat): int
    requires 2 <= base <= 16
  {
    if count == 0 then 0 else LastDigits(v / base, base, count - 1) * base + v % base
  }

  lemma OneMoreDigit(v: nat, base: nat, count: nat)
    requires 2 <= base <= 16 && count > 0
    ensures LastDigits(v, base, count) == LastDigits(v / base, base, count - 1) * base + v % base
    ensures Power(base, count) == base * Power(base, count - 1)
  {
  }

  lemma NoMoreDigits(v: nat, base: nat)
    requires 2 <= base <= 16
    ensures LastDigits(v, base, 0) == 0 && Power(base, 0) == 1
  {
  }

  lemma {:induction false} LastDigitsMod(v: nat, base: nat, count: nat)
    requires 2 <= base <= 16
    ensures Power(base, count) > 0 && LastDigits(v, base, count) == v % Power(base, count)
  {
    hide LastDigits, Power;
    if count == 0 {
      NoMoreDigits(v, base);
    } else {
      OneMoreDigit(v, base, count);
      LastDigitsMod(v / base, base, count - 1);
      MixedRadix(v, base, Power(base, count - 1));
    }
  }

  lemma {:induction false} LastDigitsOfZero(base: nat, count: nat)
    requires 2 <= base <= 16
    ensures LastDigits(0, base, count) == 0
  {
    if count == 0 {
    } else {
      DivModUnique(0, base, 0, 0);
      LastDigitsOfZero(base, count - 1);
    }
  }

  lemma ReverseNone()
    ensures Reverse([]) == []
  {
  }

  lemma Turned(v: nat, base: nat, upper: bool, room: nat)
    requires 2 <= base <= 16 && v > 0 && room > 0
    ensures var s := Reverse(RevDigits(v, base, upper, room));
            && |s| > 0 && s[|s| - 1] == DigitChar(v % base, upper)
            && s[..|s| - 1] == Reverse(RevDigits(v / base, base, upper, room - 1))
  {
    hide DigitChar;
    var r := RevDigits(v, base, upper, room);
    assert r[1..] == RevDigits(v / base, base, upper, room - 1);
  }

  /** The reversed digit buffer of a number, turned round and read. */
  lemma {:induction false} ReadDigits(v: nat, base: nat, upper: bool, room: nat)
    requires 2 <= base <= 16
    ensures Read(Reverse(RevDigits(v, base, upper, room)), base) == LastDigits(v, base, room)
    decreases room
  {
    hide DigitChar, Reverse, RevDigits, DigitValue;
    if v > 0 && room > 0 {
      ReadDigits(v / base, base, upper, room - 1);
      DigitIs(v % base, upper);
      Turned(v, base, upper, room);
    } else {
      NoDigits(v, base, upper, room);
      LastDigitsOfZero(base, room);
      ReverseNone();
    }
  }

  /** What an unadorned conversion prints. */
  lemma Unadorned(v: nat, base: nat, f: Flags)
    requires 2 <= base <= 16 && f == NO_FLAGS.(upper := f.upper)
    ensures IntegerCode(v, false, base, 0, 0, f) == Reverse(FirstDigits(v, base, f))
  {
    hide FirstDigits, Reverse;
    var start := FirstDigits(v, base, f);
    assert Repeat('0', Min(0, ROOM) - |start|) == [];
    assert PaddedNumber(start, 0, 0, f) == start;
    assert Finalized(start, false, base, 0, 0, FirstFlags(v, base, f)) == start;
    assert Repeat(' ', 0 - |start|) == [];
  }

  lemma MulAssociates(x: int, y: int, z: int)
    ensures x * (y * z) == (x * y) * z
  {
  }

  lemma {:induction false} PowerAdd(base: nat, m: nat, n: nat)
    ensures Power(base, m + n) == Power(base, m) * Power(base, n)
  {
    if m == 0 {
    } else {
      PowerAdd(base, m - 1, n);
      MulAssociates(base, Power(base, m - 1), Power(base, n));
      assert Power(base, m + n) == base * Power(base, m - 1 + n);
    }
  }

  /** The 32nd power by repeated squaring. */
  lemma Powers(base: nat, p2: nat, p4: nat, p8: nat, p16: nat)
    requires p2 == base * base && p4 == p2 * p2 && p8 == p4 * p4 && p16 == p8 * p8
    ensures Power(base, 32) == p16 * p16
  {
    assert Power(base, 1) == base * Power(base, 0) && Power(base, 0) == 1;
    PowerAdd(base, 1, 1);
    PowerAdd(base, 2, 2);
    PowerAdd(base, 4, 4);
    PowerAdd(base, 8, 8);
    PowerAdd(base, 16, 16);
  }

  lemma Power32()
    ensures Power(2, 32) == UINT && Power(8, 32) > TWO64 && Power(10, 32) > TWO64 && Power(16, 32) > TWO64
  {
    Powers(2, 4, 16, 256, 65536);
    Powers(8, 64, 4096, 0x100_0000, 0x1_0000_0000_0000);
    Powers(10, 100, 10000, 1_0000_0000, 1_0000_0000_0000_0000);
    Powers(16, 256, 65536, 0x1_0000_0000, 0x1_0000_0000_0000_0000);
  }

  lemma ReadZero(base: nat)
    requires 2 <= base <= 16
    ensures Read(Reverse(['0']), base) == 0
  {
    assert Reverse(['0']) == ['0'];
    assert Read([], base) == 0;
  }

  /** Reading back in general: only the room for 32 digits limits it. */
  lemma ReadsBack(v: nat, base: nat, f: Flags)
    requires 2 <= base <= 16 && f == NO_FLAGS.(upper := f.upper)
    ensures Power(base, ROOM) > 0
    ensures Read(IntegerCode(v, false, base, 0, 0, f), base) == v % Power(base, ROOM)
  {
    hide IntegerCode, RevDigits, Power, Read, LastDigits, Reverse;
    Unadorned(v, base, f);
    LastDigitsMod(v, base, ROOM);
    if v == 0 {
      ReadZero(base);
      LastDigitsOfZero(base, ROOM);
    } else {
      ReadDigits(v, base, f.upper, ROOM);
    }
  }

  /** The printed digits read back as the value modulo the base to the 32nd: every 64-bit
      value itself in bases 8, 10 and 16, its low 32 bits in base 2. */
  lemma PrintedReadsBack(v: nat, base: nat, f: Flags)
    requires base == 2 || base == 8 || base == 10 || base == 16
    requires v < TWO64 && f == NO_FLAGS.(upper := f.upper)
    ensures Read(IntegerCode(v, false, base, 0, 0, f), base) == if base == 2 then v % UINT else v
  {
    hide IntegerCode, Power, Read;
    ReadsBack(v, base, f);
    Power32();
    if base != 2 {
      DivModUnique(v, Power(base, ROOM), 0, v);
    }
  }

  /** What a specifier alone makes of a value: d, i and u print it in base 10, o in base 8, x
      and X in base 16, b its low 32 bits in base 2. */
  lemma SpecifiersReadBack(v: nat)
    requires v < TWO64
    ensures forall conv :: conv in "diu" ==> Read(C99.Code(conv, v, 0, 0, NO_FLAGS), 10) == v
    ensures Read(C99.Code('o', v, 0, 0, NO_FLAGS), 8) == v
    ensures forall conv :: conv in "xX" ==> Read(C99.Code(conv, v, 0, 0, NO_FLAGS), 16) == v
    ensures Read(C99.Code('b', v, 0, 0, NO_FLAGS), 2) == v % 0x1_0000_0000
  {
    hide IntegerCode, Read;
    var f, g := NO_FLAGS, NO_FLAGS.(upper := true);
    PrintedReadsBack(v, 2, f);
    PrintedReadsBack(v, 8, f);
    PrintedReadsBack(v, 10, f);
    PrintedReadsBack(v, 16, f);
    PrintedReadsBack(v, 16, g);
  }

  // -------------------------------------------------------------------- letters

  lemma {:induction false} LettersOf(v: nat, upper: bool, room: nat)
    ensures forall c :: c in RevDigits(v, 16, upper, room) ==>
              c in if upper then "0123456789ABCDEF" else "0123456789abcdef"
    decreases room
  {
    if v == 0 || room == 0 {
    } else {
      LettersOf(v / 16, upper, room - 1);
      assert DigitChar(v % 16, upper) == C99.Digit(v % 16, upper);
    }
  }

  lemma {:induction false} ReverseHas(s: seq<char>, c: char)
    ensures c in Reverse(s) <==> c in s
  {
    if |s| == 0 {
    } else {
      ReverseHas(s[1..], c);
    }
  }

  lemma ReverseZero()
    ensures Reverse(['0']) == ['0']
  {
  }

  /** The letters of x are a to f and those of X are A to F. */
  lemma HexLetters(v: nat)
    ensures forall c :: c in C99.Code('x', v, 0, 0, NO_FLAGS) ==> '0' <= c <= '9' || 'a' <= c <= 'f'
    ensures forall c :: c in C99.Code('X', v, 0, 0, NO_FLAGS) ==> '0' <= c <= '9' || 'A' <= c <= 'F'
  {
    hide IntegerCode, RevDigits, Reverse;
    Unadorned(v, 16, NO_FLAGS);
    Unadorned(v, 16, NO_FLAGS.(upper := true));
    LettersOf(v, false, ROOM);
    LettersOf(v, true, ROOM);
    forall c ensures c in Reverse(RevDigits(v, 16, false, ROOM)) <==> c in RevDigits(v, 16, false, ROOM) {
      ReverseHas(RevDigits(v, 16, false, ROOM), c);
    }
    forall c ensures c in Reverse(RevDigits(v, 16, true, ROOM)) <==> c in RevDigits(v, 16, true, ROOM) {
      ReverseHas(RevDigits(v, 16, true, ROOM), c);
    }
    ReverseZero();
  }
}

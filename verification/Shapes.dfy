/** What the standard's texts look like: the sign, the prefix, the zeros and the digits of an
    integer, which read back as its value, the field around it, and the same for characters,
    strings and the types that length modifiers name. */
module Shapes {
  import opened C99
  import opened Directives
  import opened Fprintf
  import opened Grammar
  import opened IntegerText
  import opened ReadBack
  import Output
  import Words

  function Max(a: int, b: int): int {
    if a < b then b else a
  }

  // --------------------------------------------------------------------- fields

  lemma {:induction false} Copies(c: char, n: int)
    ensures forall k :: 0 <= k < |Repeat(c, n)| ==> Repeat(c, n)[k] == c
  {
    if n <= 0 {
    } else {
      Copies(c, n - 1);
    }
  }

  /** A field is as wide as asked or as wide as its text: blanks come after the text if it is
      left-justified and before it otherwise. */
  lemma FieldShape(text: seq<char>, width: nat, left: bool)
    ensures var field := InField(text, width, left);
            && |field| == Max(width, |text|)
            && (left ==> field[..|text|] == text && forall k :: |text| <= k < |field| ==> field[k] == ' ')
            && (!left ==> var n := |field| - |text|;
                          field[n..] == text && forall k :: 0 <= k < n ==> field[k] == ' ')
  {
    Copies(' ', width - |text|);
  }

  // ------------------------------------------------------------------- integers

  /** The digits of a specifier. */
  function Letters(conv: char): seq<char> {
    if conv == 'o' then "01234567"
    else if conv == 'x' then "0123456789abcdef"
    else if conv == 'X' then "0123456789ABCDEF"
    else "0123456789"
  }

  lemma LetterOf(conv: char, d: nat)
    requires IsConversion(conv) && d < Radix(conv)
    ensures Digit(d, conv == 'X') in Letters(conv) && DigitValue(Digit(d, conv == 'X')) == d
  {
    assert Digit(d, conv == 'X') == Letters(conv)[d];
  }

  lemma Smaller(v: nat, b: nat)
    requires v > 0 && (b == 8 || b == 10 || b == 16)
    ensures v / b < v && v % b < b && v / b * b + v % b == v
  {
  }

  lemma {:induction false} DigitsRead(conv: char, v: nat)
    requires IsConversion(conv)
    ensures var digits := Digits(v, Radix(conv), conv == 'X');
            Read(digits, Radix(conv)) == v && forall c :: c in digits ==> c in Letters(conv)
    decreases v
  {
    hide Digit, DigitValue, Read, Letters;
    var b, upper := Radix(conv), conv == 'X';
    if v == 0 {
      ReadNothing([], b);
    } else {
      Smaller(v, b);
      DigitsRead(conv, v / b);
      LetterOf(conv, v % b);
      ReadOneMore(Digits(v / b, b, upper), Digit(v % b, upper), b);
    }
  }

  /** The sign of d and i; other conversions have none. */
  function SignOf(conv: char, value: int, f: Flags): seq<char> {
    if conv != 'd' && conv != 'i' then ""
    else if value < 0 then "-"
    else if f.plus then "+"
    else if f.space then " "
    else ""
  }

  /** 0x and 0X, of a value other than zero in alternative form. */
  function PrefixOf(conv: char, value: int, f: Flags): seq<char> {
    if !f.hash || value == 0 then "" else if conv == 'x' then "0x" else if conv == 'X' then "0X" else ""
  }

  /** The least number of digits: the precision, by default one; in octal alternative form one
      more than the significant ones. */
  function LeastDigits(conv: char, significant: nat, precision: nat, f: Flags): nat {
    Max(if f.precision then precision else 1, if conv == 'o' && f.hash then significant + 1 else 0)
  }

  lemma BodyParts(conv: char, value: int, precision: nat, width: nat, f: Flags)
    ensures var s, x, d := SignOf(conv, value, f), PrefixOf(conv, value, f), DigitText(conv, value, precision, f);
            Body(conv, value, precision, width, f)
            == s + x + (if ZeroPadded(f) then Repeat('0', width - |s| - |x| - |d|) else []) + d
  {
    hide DigitText, Repeat;
  }

  lemma NoneForZero(base: nat, upper: bool)
    requires 2 <= base <= 16
    ensures Digits(0, base, upper) == []
  {
  }

  lemma DigitsShape(conv: char, v: nat)
    requires IsConversion(conv)
    ensures var base: nat := if conv == 'o' then 8 else if conv == 'x' || conv == 'X' then 16 else 10;
            var digits := Digits(v, Radix(conv), conv == 'X');
            && Read(digits, base) == v && (forall c :: c in digits ==> c in Letters(conv))
            && (|digits| > 0 ==> digits[0] != '0')
  {
    hide Digits, Read, Letters;
    DigitsRead(conv, v);
    if v > 0 {
      FirstDigit(v, Radix(conv), conv == 'X');
    } else {
      NoneForZero(Radix(conv), conv == 'X');
    }
  }

  /** The zeros before the significant digits, without those that fill a width. */
  lemma DigitZeros(conv: char, value: int, precision: nat, f: Flags) returns (zeros: seq<char>)
    requires IsConversion(conv)
    ensures var digits := Digits(Magnitude(value), Radix(conv), conv == 'X');
            && DigitText(conv, value, precision, f) == zeros + digits && (forall c :: c in zeros ==> c == '0')
            && |zeros| + |digits| == Max(|digits|, LeastDigits(conv, |digits|, precision, f))
  {
    hide Repeat, Digits;
    var digits := Digits(Magnitude(value), Radix(conv), conv == 'X');
    var z := (if f.precision then precision else 1) - |digits|;
    zeros := Repeat('0', z);
    Copies('0', z);
    if Magnitude(value) > 0 {
      FirstDigit(Magnitude(value), Radix(conv), conv == 'X');
    }
    NoneForZero(Radix(conv), conv == 'X');
    if conv == 'o' && f.hash && z <= 0 {
      assert ['0'] + (zeros + digits) == ['0'] + zeros + digits;
      zeros := ['0'] + zeros;
    }
  }

  lemma Filling(n: int, wanted: bool) returns (fill: seq<char>)
    ensures fill == if wanted then Repeat('0', n) else []
    ensures (forall c :: c in fill ==> c == '0') && |fill| == if wanted && n > 0 then n else 0
  {
    fill := if wanted then Repeat('0', n) else [];
    Copies('0', n);
  }

  lemma Regroup(s: seq<char>, x: seq<char>, fill: seq<char>, first: seq<char>, digits: seq<char>)
    ensures s + x + fill + (first + digits) == s + x + (fill + first) + digits
  {
  }

  /** An integer is its sign, its prefix, zeros and significant digits that read back as its
      magnitude, in base 8 for o, 16 for x and X, and 10 for the others, in the letters of
      the specifier; the zeros fill up to the least number of digits, or to the width where the
      0 flag counts. */
  lemma IntegerShape(conv: char, value: int, precision: nat, width: nat, f: Flags)
    returns (zeros: seq<char>, digits: seq<char>)
    requires conv in "diouxX" && (!f.precision ==> precision == 0)
    ensures Converted(conv, value, precision, width, f)
            == InField(SignOf(conv, value, f) + PrefixOf(conv, value, f) + zeros + digits, width, f.left)
    ensures (forall c :: c in zeros ==> c == '0') && (|digits| > 0 ==> digits[0] != '0')
    ensures forall c :: c in digits ==> c in Letters(conv)
    ensures Read(digits, if conv == 'o' then 8 else if conv == 'x' || conv == 'X' then 16 else 10)
            == if value < 0 then -value else value
    ensures var n, least := |zeros| + |digits|, Max(|digits|, LeastDigits(conv, |digits|, precision, f));
            n == if f.zeropad && !f.precision && !f.left
                 then Max(least, width - |SignOf(conv, value, f)| - |PrefixOf(conv, value, f)|) else least
  {
    hide Repeat, Digits, Read, Letters, InField, DigitText, LeastDigits, Radix, SignOf, PrefixOf;
    var s, x, v := SignOf(conv, value, f), PrefixOf(conv, value, f), Magnitude(value);
    digits := Digits(v, Radix(conv), conv == 'X');
    DigitsShape(conv, v);
    var d := DigitText(conv, value, precision, f);
    var first := DigitZeros(conv, value, precision, f);
    var fill := Filling(width - |s| - |x| - |d|, ZeroPadded(f));
    zeros := fill + first;
    BodyParts(conv, value, precision, width, f);
    Regroup(s, x, fill, first, digits);
  }

  // ------------------------------------------------------------ types of integers

  /** The bits of the type that a length modifier names. */
  function TypeBits(rv64: bool, length: seq<char>): nat {
    if length == "hh" then 8
    else if length == "h" then 16
    else if length == "" then 32
    else if length == "ll" || length == "j" then 64
    else if length == "l" || length == "z" || length == "t" then (if rv64 then 64 else 32)
    else 0
  }

  /** Two integers differ by a multiple of m. */
  predicate Agree(v: int, r: int, m: nat)
    requires m > 0
  {
    (v - r) % m == 0
  }

  lemma SignedAgrees(v: int, m: nat)
    requires m > 0 && m % 2 == 0
    ensures Agree(v, AsSigned(v, m), m) && -(m / 2) <= AsSigned(v, m) < m / 2
  {
    hide SignedArg;
    var u := v + m / 2;
    Words.DivModUnique(v - (u % m - m / 2), m, u / m, 0);
  }

  lemma UnsignedAgrees(v: int, m: nat)
    requires m > 0
    ensures Agree(v, v % m, m) && 0 <= v % m < m
  {
    Words.DivModUnique(v - v % m, m, v / m, 0);
  }

  /** How many values those bits have. */
  function Values(bits: nat): nat {
    if bits == 8 then 0x100 else if bits == 16 then 0x1_0000
    else if bits == 32 then 0x1_0000_0000 else 0x1_0000_0000_0000_0000
  }

  lemma RangeOfBits(rv64: bool, length: seq<char>)
    requires TypeBits(rv64, length) != 0
    ensures TypeRange(rv64, length) == Values(TypeBits(rv64, length)) > 0
  {
  }

  /** An integer argument is the value of its type that it agrees with in that many bits. */
  lemma TypeShape(rv64: bool, conv: char, length: seq<char>, v: int)
    requires TypeBits(rv64, length) != 0
    ensures TypeRange(rv64, length) > 0
    ensures var m, r := Values(TypeBits(rv64, length)), IntegerValue(rv64, conv, length, v);
            && Agree(v, r, m)
            && if conv == 'd' || conv == 'i' then -(m / 2) <= r < m / 2 else 0 <= r < m
  {
    hide AsSigned, SignedArg, TypeRange, TypeBits, Values, Agree;
    RangeOfBits(rv64, length);
    SignedAgrees(v, TypeRange(rv64, length));
    UnsignedAgrees(v, TypeRange(rv64, length));
  }

  // ------------------------------------------------------- characters and strings

  lemma CharShape(v: nat, width: nat, f: Flags)
    requires v < 0x100
    ensures CharStandard(v, width, f) == InField([v as char], width, f.left)
    ensures CharStandard(v - 0x100, width, f) == CharStandard(v, width, f)
  {
  }

  /** A string is its own beginning, whole or as long as the precision, in its field. */
  lemma StringShape(t: CString, width: nat, precision: nat, f: Flags) returns (u: seq<char>)
    ensures StringStandard(t, width, precision, f) == InField(u, width, f.left)
    ensures u <= t && |u| == if f.precision && precision < |t| then precision else |t|
  {
    u := if f.precision && precision < |t| then t[..precision] else t;
  }

  // ------------------------------------------------------------------- binary

  lemma {:induction false} BinaryLength(v: nat, n: nat, room: nat)
    requires v < Words.Pow2(n)
    ensures |RevDigits(v, 2, false, room)| <= n
    decreases n
  {
    if n == 0 {
      assert Words.Pow2(0) == 1;
    } else if v > 0 && room > 0 {
      BinaryLength(v / 2, n - 1, room - 1);
    }
  }

  lemma ReversedPrefix(buf: seq<char>)
    ensures Reverse(buf + ['b'] + ['0']) == "0b" + Reverse(buf)
  {
    hide Reverse;
    ReverseOne(buf, 'b');
    ReverseOne(buf + ['b'], '0');
  }

  /** The conversion b, which the standard does not have: in alternative form 0b precedes the
      digits of a value other than zero, while they leave it room. */
  lemma BinaryShape(v: nat)
    requires 0 < v < 0x4000_0000
    ensures Code('b', v, 0, 0, NO_FLAGS.(hash := true)) == "0b" + Code('b', v, 0, 0, NO_FLAGS)
  {
    hide Reverse, RevDigits, Words.Pow2;
    var f, start := NO_FLAGS.(hash := true), RevDigits(v, 2, false, ROOM);
    Words.Pow2Values();
    BinaryLength(v, 30, ROOM);
    Unadorned(v, 2, NO_FLAGS);
    assert Repeat('0', 0 - |start|) == [] && Repeat('0', Output.Min(0, ROOM) - |start|) == [];
    assert PaddedNumber(start, 0, 0, f) == start;
    assert start[..|start|] == start;
    assert Finalized(start, false, 2, 0, 0, f) == start + ['b'] + ['0'];
    ReversedPrefix(start);
    assert Repeat(' ', 0 - |start + ['b'] + ['0']|) == [];
  }
}

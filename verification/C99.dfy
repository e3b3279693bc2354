/** The integer conversions of ISO/IEC 9899:1999, section 7.19.6.1, and exactly when the text
    of sdk/librv/printf.c is the text the standard asks for. */
module C99 {
  import opened Arch
  import opened Words
  import opened Output
  import opened IntegerText

  // ------------------------------------------------------------ the standard

  /** The digits: x has abcdef beyond the decimal ones, X has ABCDEF. */
  function Digit(d: nat, upper: bool): (c: char)
    requires d < 16
    ensures c == DigitChar(d, upper)
  {
    (if upper then "0123456789ABCDEF" else "0123456789abcdef")[d]
  }

  /** The digits of v, most significant first; none for zero. */
  function Digits(v: nat, base: nat, upper: bool): seq<char>
    requires 2 <= base <= 16
  {
    if v == 0 then [] else Digits(v / base, base, upper) + [Digit(v % base, upper)]
  }

  predicate IsConversion(conv: char) {
    conv == 'd' || conv == 'i' || conv == 'u' || conv == 'o' || conv == 'x' || conv == 'X'
  }

  /** o is octal, x and X are hexadecimal, d, i and u decimal. */
  function Radix(conv: char): (b: nat)
    ensures 2 <= b <= 16 && (IsConversion(conv) ==> b == Base(conv))
  {
    if conv == 'o' then 8 else if conv == 'x' || conv == 'X' then 16 else 10
  }

  /** A sign that begins a signed conversion. */
  function Sign(conv: char, value: int, f: Flags): seq<char> {
    if conv != 'd' && conv != 'i' then []
    else if value < 0 then ['-']
    else if f.plus then ['+']
    else if f.space then [' ']
    else []
  }

  /** A nonzero hexadecimal result in alternative form has 0x or 0X prefixed. */
  function Prefix(conv: char, value: int, f: Flags): seq<char> {
    if f.hash && value != 0 && conv == 'x' then ['0', 'x']
    else if f.hash && value != 0 && conv == 'X' then ['0', 'X']
    else []
  }

  function Magnitude(value: int): nat {
    if value < 0 then -value else value
  }

  /** The least number of digits is the precision, by default 1; the octal alternative form
      makes the first digit a zero. */
  function DigitText(conv: char, value: int, precision: nat, f: Flags): seq<char> {
    var digits := Digits(Magnitude(value), Radix(conv), conv == 'X');
    var d := Repeat('0', (if f.precision then precision else 1) - |digits|) + digits;
    if conv == 'o' && f.hash && (|d| == 0 || d[0] != '0') then ['0'] + d else d
  }

  /** The 0 flag counts neither beside a precision nor beside the - flag. */
  predicate ZeroPadded(f: Flags) {
    f.zeropad && !f.precision && !f.left
  }

  /** The characters of a conversion besides its padding blanks. */
  function Body(conv: char, value: int, precision: nat, width: nat, f: Flags): seq<char> {
    var s, x, d := Sign(conv, value, f), Prefix(conv, value, f), DigitText(conv, value, precision, f);
    s + x + (if ZeroPadded(f) then Repeat('0', width - |s| - |x| - |d|) else []) + d
  }

  /** A text in a field of at least a width: blanks after it or before it. */
  function InField(text: seq<char>, width: nat, left: bool): seq<char> {
    if left then text + Repeat(' ', width - |text|) else Repeat(' ', width - |text|) + text
  }

  /** The converted value in its field. */
  function Converted(conv: char, value: int, precision: nat, width: nat, f: Flags): seq<char> {
    InField(Body(conv, value, precision, width, f), width, f.left)
  }

  // ------------------------------------------------------- when the code agrees

  /** The arguments of a conversion: a 64-bit value and what the parser leaves. */
  predicate Proper(conv: char, value: int, precision: nat, f: Flags) {
    && IsConversion(conv)
    && (if TakesSigned(conv) then -0x8000_0000_0000_0000 <= value < 0x8000_0000_0000_0000 else 0 <= value < TWO64)
    && (!f.precision ==> precision == 0)
    && !f.pointer && !f.upper
  }

  /** What the code makes of the same arguments. */
  function Code(conv: char, value: int, precision: nat, width: nat, f: Flags): seq<char> {
    IntegerCode(Magnitude(value), value < 0, Base(conv), precision, width, Settled(conv, f))
  }

  /** Agreement: all but the padding blanks fit the buffer of 32 characters; or the one blank
      that does not is the sign of a precision of 32, and falls among the padding. */
  predicate FitsBuffer(conv: char, value: int, precision: nat, width: nat, f: Flags) {
    || |Body(conv, value, precision, width, f)| <= ROOM
    || (Sign(conv, value, f) == [' '] && f.precision && precision == ROOM && !f.left && width > ROOM)
  }

  // -------------------------------------------------------------------- digits

  lemma {:induction false} DigitsReversed(v: nat, base: nat, upper: bool, room: nat)
    requires 2 <= base <= 16 && |Digits(v, base, upper)| <= room
    ensures Reverse(RevDigits(v, base, upper, room)) == Digits(v, base, upper)
    decreases room
  {
    if v == 0 {
    } else {
      DigitsReversed(v / base, base, upper, room - 1);
      var r := RevDigits(v, base, upper, room);
      assert r[1..] == RevDigits(v / base, base, upper, room - 1);
    }
  }

  lemma QuotientBelow(v: nat, base: nat, p: nat)
    requires (base == 8 || base == 10 || base == 16) && v < 8 * p
    ensures v / base < p
  {
  }

  lemma EightTimes(k: nat)
    requires k > 0
    ensures Pow2(3 * k) == 8 * Pow2(3 * (k - 1))
  {
    hide Pow2;
    Pow2Values();
    Pow2Add(3, 3 * (k - 1));
  }

  /** A number below 8 to the k has at most k digits in base 8, 10 or 16. */
  lemma {:induction false} DigitsLength(v: nat, base: nat, upper: bool, k: nat)
    requires (base == 8 || base == 10 || base == 16) && v < Pow2(3 * k)
    ensures |Digits(v, base, upper)| <= k
    decreases k
  {
    hide DigitChar, Digit;
    if k == 0 {
      assert Pow2(0) == 1;
    } else {
      EightTimes(k);
      QuotientBelow(v, base, Pow2(3 * (k - 1)));
      DigitsLength(v / base, base, upper, k - 1);
    }
  }

  /** A 64-bit number has at most 22 digits. */
  lemma AtMost22(v: nat, base: nat, upper: bool)
    requires (base == 8 || base == 10 || base == 16) && v < TWO64
    ensures |Digits(v, base, upper)| <= 22
  {
    hide Digits;
    assert Pow2(66) == 4 * TWO64 by {
      Pow2Values();
      Pow2Add(64, 2);
    }
    DigitsLength(v, base, upper, 22);
  }

  lemma OneDigit(v: nat, base: nat, upper: bool)
    requires (base == 8 || base == 10 || base == 16) && v > 0 && v / base == 0
    ensures DigitChar(v % base, upper) != '0'
  {
  }

  lemma {:induction false} FirstDigit(v: nat, base: nat, upper: bool)
    requires (base == 8 || base == 10 || base == 16) && v > 0
    ensures |Digits(v, base, upper)| > 0 && Digits(v, base, upper)[0] != '0'
    decreases v
  {
    hide DigitChar, Digit;
    if v / base > 0 {
      FirstDigit(v / base, base, upper);
    } else {
      OneDigit(v, base, upper);
    }
  }

  /** The digits that print_integer starts from, the right way round. */
  lemma StartingDigits(v: nat, base: nat, f: Flags, precision: nat)
    requires (base == 8 || base == 10 || base == 16) && v < TWO64 && (!f.precision ==> precision == 0)
    ensures var start, digits := FirstDigits(v, base, f), Digits(v, base, f.upper);
            && |start| <= 22
            && Repeat('0', (if f.precision then precision else 1) - |digits|) + digits
               == Repeat('0', precision - |start|) + Reverse(start)
            && (v > 0 ==> |start| > 0 && Reverse(start)[0] != '0')
            && (v == 0 ==> Reverse(start) == if f.precision then [] else ['0'])
  {
    hide RevDigits, DigitChar, Digit;
    if v > 0 {
      AtMost22(v, base, f.upper);
      DigitsReversed(v, base, f.upper, ROOM);
      FirstDigit(v, base, f.upper);
    } else {
      assert Reverse(['0']) == ['0'];
      assert Repeat('0', 1) == ['0'];
    }
  }

  // -------------------------------------------------------- the code's number

  lemma {:induction false} RepeatPrefix(c: char, n: nat, k: nat)
    requires k <= n
    ensures Repeat(c, n)[..k] == Repeat(c, k)
  {
    if k < n {
      RepeatPrefix(c, n - 1, k);
      assert Repeat(c, n)[..k] == Repeat(c, n - 1)[..k];
    }
  }

  lemma ReversePadded(start: seq<char>, z: int)
    ensures Reverse(start + Repeat('0', z)) == Repeat('0', z) + Reverse(start)
  {
    ReverseAppend(start, Repeat('0', z));
    ReverseRepeat('0', z);
  }

  /** How many zeros print_integer_finalization adds to the digits. */
  function Zeros(start: nat, precision: nat, width: nat, f: Flags): int {
    Min(if ZeroPadded(f) then width else precision, ROOM) - start
  }

  lemma PaddedIs(start: seq<char>, precision: nat, width: nat, f: Flags)
    requires |start| <= 22 && (f.zeropad ==> precision == 0 && !f.precision)
    ensures PaddedNumber(start, precision, width, f) == start + Repeat('0', Zeros(|start|, precision, width, f))
  {
    var n := Min(width, ROOM) - |start|;
    if ZeroPadded(f) {
      assert Repeat('0', Min(precision, ROOM) - |start + Repeat('0', n)|) == [];
    }
  }

  lemma ReverseOne(buf: seq<char>, c: char)
    ensures Reverse(buf + [c]) == [c] + Reverse(buf)
  {
    ReverseAppend(buf, [c]);
    assert Reverse([c]) == [c];
  }

  lemma SignIs(conv: char, value: int, f: Flags, buf: seq<char>)
    requires value < 0 ==> TakesSigned(conv)
    ensures var s := Sign(conv, value, f);
            && |s| == (if value < 0 || (f.plus && TakesSigned(conv)) || (f.space && TakesSigned(conv)) then 1 else 0)
            && Reverse(WithSign(buf, value < 0, Settled(conv, f)))
               == (if |buf| < ROOM then s else []) + Reverse(buf)
  {
    hide Reverse, Base;
    var s := Sign(conv, value, f);
    if |s| > 0 {
      ReverseOne(buf, s[0]);
    }
  }

  function Start(conv: char, value: int, f: Flags): seq<char> {
    FirstDigits(Magnitude(value), Base(conv), Settled(conv, f))
  }

  /** The number the code builds, most significant character first. */
  function Number(conv: char, value: int, precision: nat, width: nat, f: Flags): seq<char> {
    var b, m, g := Base(conv), Magnitude(value), Settled(conv, f);
    Reverse(Finalized(Start(conv, value, f), value < 0, b, precision, width, FirstFlags(m, b, g)))
  }

  /** The width that is left beside the sign. */
  function Inner(conv: char, value: int, width: nat, f: Flags): nat {
    ZeroWidth(value < 0, width, Settled(conv, f))
  }

  lemma StartIs(conv: char, value: int, precision: nat, f: Flags)
    requires Proper(conv, value, precision, f)
    ensures var start, digits := Start(conv, value, f), Digits(Magnitude(value), Base(conv), conv == 'X');
            && |start| <= 22
            && Repeat('0', (if f.precision then precision else 1) - |digits|) + digits
               == Repeat('0', precision - |start|) + Reverse(start)
            && (value != 0 ==> |start| > 0 && Reverse(start)[0] != '0')
            && (value == 0 ==> Reverse(start) == if f.precision then [] else ['0'])
  {
    hide Digits, Repeat, Reverse, FirstDigits;
    StartingDigits(Magnitude(value), Base(conv), Settled(conv, f), precision);
  }

  lemma PlainDigits(conv: char, value: int, precision: nat, f: Flags)
    requires Proper(conv, value, precision, f) && !(f.hash && conv == 'o')
    ensures var start := Start(conv, value, f);
            DigitText(conv, value, precision, f) == Repeat('0', precision - |start|) + Reverse(start)
  {
    hide Digits, Reverse, Start, Repeat;
    StartIs(conv, value, precision, f);
  }

  /** What the standard asks for, unless the octal alternative form adds a zero. */
  lemma BodyIs(conv: char, value: int, precision: nat, width: nat, f: Flags)
    requires Proper(conv, value, precision, f) && !(f.hash && conv == 'o')
    ensures var s, x, start := Sign(conv, value, f), Prefix(conv, value, f), Start(conv, value, f);
            var z := (if ZeroPadded(f) then width - |s| - |x| else precision) - |start|;
            Body(conv, value, precision, width, f) == s + x + Repeat('0', z) + Reverse(start)
  {
    hide DigitText, Digits, Reverse, Start, Sign, Prefix;
    PlainDigits(conv, value, precision, f);
  }

  /** The digits with their zeros, and the flags, as the alternative form finds them. */
  function Padded(conv: char, value: int, precision: nat, width: nat, f: Flags): (s: seq<char>)
    ensures |Start(conv, value, f)| <= |s|
  {
    var start := Start(conv, value, f);
    start + Repeat('0', Zeros(|start|, precision, Inner(conv, value, width, f), f))
  }

  function AltFlags(conv: char, value: int, precision: nat, width: nat, f: Flags): Flags {
    var g := FirstFlags(Magnitude(value), Base(conv), Settled(conv, f));
    if Base(conv) == 8 && |Padded(conv, value, precision, width, f)| > |Start(conv, value, f)|
    then g.(hash := false) else g
  }

  function Alt(conv: char, value: int, precision: nat, width: nat, f: Flags): seq<char> {
    Alternative(Padded(conv, value, precision, width, f), |Start(conv, value, f)|, Base(conv), precision,
                Inner(conv, value, width, f), AltFlags(conv, value, precision, width, f))
  }

  lemma PaddedNumberIs(conv: char, value: int, precision: nat, width: nat, f: Flags)
    requires Proper(conv, value, precision, f)
    ensures PaddedNumber(Start(conv, value, f), precision, Inner(conv, value, width, f),
                         FirstFlags(Magnitude(value), Base(conv), Settled(conv, f)))
            == Padded(conv, value, precision, width, f)
  {
    hide Start, PaddedNumber, Inner, Min, Repeat;
    StartIs(conv, value, precision, f);
    PaddedIs(Start(conv, value, f), precision, Inner(conv, value, width, f),
             FirstFlags(Magnitude(value), Base(conv), Settled(conv, f)));
  }

  lemma NumberIs(conv: char, value: int, precision: nat, width: nat, f: Flags)
    requires Proper(conv, value, precision, f)
    ensures var alt := Alt(conv, value, precision, width, f);
            Number(conv, value, precision, width, f)
            == (if |alt| < ROOM then Sign(conv, value, f) else []) + Reverse(alt)
  {
    hide Start, Padded, PaddedNumber, Alternative, Reverse, Append, Sign;
    PaddedNumberIs(conv, value, precision, width, f);
    SignIs(conv, value, f, Alt(conv, value, precision, width, f));
  }

  lemma AltFlagsAre(conv: char, value: int, precision: nat, width: nat, f: Flags)
    requires !f.pointer
    ensures var g := AltFlags(conv, value, precision, width, f);
            && !g.pointer && g.precision == f.precision && g.upper == (f.upper || conv == 'X')
            && g.hash == (f.hash && Base(conv) != 10
                          && !(value == 0 && (!f.precision || Base(conv) == 16))
                          && !(Base(conv) == 8 && |Padded(conv, value, precision, width, f)| > |Start(conv, value, f)|))
  {
    hide Start, Padded;
  }

  /** What the code builds where there is no prefix. */
  lemma PlainNumber(conv: char, value: int, precision: nat, width: nat, f: Flags)
    requires Proper(conv, value, precision, f) && !AltFlags(conv, value, precision, width, f).hash
    ensures var start := Start(conv, value, f);
            var z := Zeros(|start|, precision, Inner(conv, value, width, f), f);
            Number(conv, value, precision, width, f)
            == (if |start| + z < ROOM then Sign(conv, value, f) else []) + Repeat('0', z) + Reverse(start)
  {
    hide Number, Start, Sign, Reverse, AltFlags, Inner, Zeros;
    StartIs(conv, value, precision, f);
    NumberIs(conv, value, precision, width, f);
    var start := Start(conv, value, f);
    ReversePadded(start, Zeros(|start|, precision, Inner(conv, value, width, f), f));
    assert !AltFlags(conv, value, precision, width, f).pointer by { AltFlagsAre(conv, value, precision, width, f); }
  }

  lemma DecimalNumber(conv: char, value: int, precision: nat, width: nat, f: Flags)
    requires Proper(conv, value, precision, f) && Base(conv) == 10
    requires |Body(conv, value, precision, width, f)| <= ROOM
    ensures Number(conv, value, precision, width, f) == Body(conv, value, precision, width, f)
  {
    hide Number, Start, Reverse, AltFlags, Body, Repeat;
    BodyIs(conv, value, precision, width, f);
    StartIs(conv, value, precision, f);
    AltFlagsAre(conv, value, precision, width, f);
    PlainNumber(conv, value, precision, width, f);
  }

  /** How many zeros a hexadecimal number has between its prefix and its digits. */
  function HexZeros(start: nat, precision: nat, width: nat, f: Flags): nat {
    var room := if ZeroPadded(f) then width - 2 else precision;
    if room < start then 0 else room - start
  }

  /** Exactly the zeros that the prefix needs the room of are taken back. */
  lemma KeptIs(start: nat, precision: nat, width: nat, g: Flags, f: Flags)
    requires 0 < start <= 22 && g.precision == f.precision && (!f.precision ==> precision == 0)
    requires 2 + (if ZeroPadded(f) then width - 2 else precision) <= ROOM
    ensures var z := Zeros(start, precision, width, f);
            Kept(start + (if z < 0 then 0 else z), start, 16, precision, width, g)
            == start + HexZeros(start, precision, width, f)
  {
  }

  lemma KeptPart(start: seq<char>, z: int, kept: nat)
    requires |start| <= kept <= |start + Repeat('0', z)|
    ensures (start + Repeat('0', z))[..kept] == start + Repeat('0', kept - |start|)
  {
    if z > 0 {
      RepeatPrefix('0', z, kept - |start|);
    }
  }

  lemma HexAlt(conv: char, value: int, precision: nat, width: nat, f: Flags)
    requires Proper(conv, value, precision, f) && Base(conv) == 16 && f.hash && value != 0
    requires 2 + (if ZeroPadded(f) then width - 2 else precision) <= ROOM
    ensures var start := Start(conv, value, f);
            && |start| + HexZeros(|start|, precision, width, f) <= ROOM - 2
            && Alt(conv, value, precision, width, f)
               == Prefixed(start + Repeat('0', HexZeros(|start|, precision, width, f)), 16, conv == 'X')
  {
    hide Start, Reverse, AltFlags, Repeat, Prefixed, Digits, Kept, Zeros;
    var start := Start(conv, value, f);
    StartIs(conv, value, precision, f);
    AltFlagsAre(conv, value, precision, width, f);
    KeptIs(|start|, precision, width, AltFlags(conv, value, precision, width, f), f);
    KeptPart(start, Zeros(|start|, precision, width, f), |start| + HexZeros(|start|, precision, width, f));
  }

  lemma PrefixedHex(buf: seq<char>, upper: bool)
    requires |buf| <= ROOM - 2
    ensures |Prefixed(buf, 16, upper)| == |buf| + 2
    ensures Reverse(Prefixed(buf, 16, upper)) == ['0', if upper then 'X' else 'x'] + Reverse(buf)
  {
    hide Reverse;
    var c := if upper then 'X' else 'x';
    ReverseOne(buf, c);
    ReverseOne(buf + [c], '0');
  }

  /** What the code builds for a nonzero value in hexadecimal alternative form. */
  lemma HexPrefixed(conv: char, value: int, precision: nat, width: nat, f: Flags)
    requires Proper(conv, value, precision, f) && Base(conv) == 16 && f.hash && value != 0
    requires 2 + (if ZeroPadded(f) then width - 2 else precision) <= ROOM
    ensures var start := Start(conv, value, f);
            Number(conv, value, precision, width, f)
            == ['0', if conv == 'X' then 'X' else 'x'] + Repeat('0', HexZeros(|start|, precision, width, f))
               + Reverse(start)
  {
    hide Number, Start, Reverse, Alt, Repeat, Prefixed, HexZeros;
    var start, upper := Start(conv, value, f), conv == 'X';
    NumberIs(conv, value, precision, width, f);
    HexAlt(conv, value, precision, width, f);
    ReversePadded(start, HexZeros(|start|, precision, width, f));
    PrefixedHex(start + Repeat('0', HexZeros(|start|, precision, width, f)), upper);
  }

  lemma NoZeros(c: char, m: int, n: int)
    requires m == n || (m <= 0 && n <= 0)
    ensures Repeat(c, m) == Repeat(c, n)
  {
  }

  lemma HexAlternative(conv: char, value: int, precision: nat, width: nat, f: Flags)
    requires Proper(conv, value, precision, f) && Base(conv) == 16 && f.hash && value != 0
    requires |Body(conv, value, precision, width, f)| <= ROOM
    ensures Number(conv, value, precision, width, f) == Body(conv, value, precision, width, f)
  {
    hide Number, Start, Reverse, Body, Repeat, Digits, Magnitude, Settled;
    BodyIs(conv, value, precision, width, f);
    HexPrefixed(conv, value, precision, width, f);
    NoZeros('0', HexZeros(|Start(conv, value, f)|, precision, width, f),
            (if ZeroPadded(f) then width - 2 else precision) - |Start(conv, value, f)|);
  }

  lemma HexNumber(conv: char, value: int, precision: nat, width: nat, f: Flags)
    requires Proper(conv, value, precision, f) && Base(conv) == 16
    requires |Body(conv, value, precision, width, f)| <= ROOM
    ensures Number(conv, value, precision, width, f) == Body(conv, value, precision, width, f)
  {
    hide Number, Start, Reverse, AltFlags, Body, Repeat, Digits;
    if f.hash && value != 0 {
      HexAlternative(conv, value, precision, width, f);
    } else {
      BodyIs(conv, value, precision, width, f);
      StartIs(conv, value, precision, f);
      AltFlagsAre(conv, value, precision, width, f);
      PlainNumber(conv, value, precision, width, f);
    }
  }

  lemma OctalPrefixed(value: int, precision: nat, width: nat, f: Flags)
    requires Proper('o', value, precision, f) && AltFlags('o', value, precision, width, f).hash
    ensures Number('o', value, precision, width, f) == ['0'] + Reverse(Start('o', value, f))
    ensures Zeros(|Start('o', value, f)|, precision, width, f) <= 0 && !(value == 0 && !f.precision)
  {
    hide Number, Start, Reverse, AltFlags, Repeat, Zeros;
    AltFlagsAre('o', value, precision, width, f);
    StartIs('o', value, precision, f);
    NumberIs('o', value, precision, width, f);
    var start := Start('o', value, f);
    assert Padded('o', value, precision, width, f) == start;
    assert start[..|start|] == start;
    ReverseOne(start, '0');
  }

  lemma OctalDigits(value: int, precision: nat, f: Flags)
    requires Proper('o', value, precision, f) && f.hash
    ensures var start := Start('o', value, f);
            DigitText('o', value, precision, f)
            == (if precision <= |start| && !(value == 0 && !f.precision) then ['0']
                else Repeat('0', precision - |start|)) + Reverse(start)
  {
    hide Digits, Reverse, Start;
    StartIs('o', value, precision, f);
    var z := precision - |Start('o', value, f)|;
    if z > 0 {
      RepeatFront('0', z - 1);
    }
  }

  lemma OctalField(value: int, precision: nat, width: nat, f: Flags)
    ensures var d := DigitText('o', value, precision, f);
            Body('o', value, precision, width, f) == (if ZeroPadded(f) then Repeat('0', width - |d|) else []) + d
  {
    hide DigitText, Repeat;
  }

  lemma OctalFill(r: seq<char>, d: seq<char>, width: nat, bare: bool)
    requires d == (if bare then [] else ['0']) + r && (bare ==> |r| == 1)
    ensures var z := width - |r|;
            Repeat('0', width - |d|) + d == (if z <= 0 && !bare then ['0'] else Repeat('0', z)) + r
  {
    if !bare && |r| < width {
      assert Repeat('0', width - |r|) == Repeat('0', width - |d|) + ['0'];
    }
  }

  /** The octal alternative form adds a zero exactly where padding or precision adds none. */
  lemma OctalBody(value: int, precision: nat, width: nat, f: Flags)
    requires Proper('o', value, precision, f) && f.hash
    ensures var start := Start('o', value, f);
            var z := (if ZeroPadded(f) then width else precision) - |start|;
            Body('o', value, precision, width, f)
            == (if z <= 0 && !(value == 0 && !f.precision) then ['0'] else Repeat('0', z)) + Reverse(start)
  {
    hide Reverse, Start, DigitText, Digits, Body, Repeat;
    var start, d := Start('o', value, f), DigitText('o', value, precision, f);
    StartIs('o', value, precision, f);
    OctalDigits(value, precision, f);
    OctalField(value, precision, width, f);
    if ZeroPadded(f) {
      OctalFill(Reverse(start), d, width, value == 0);
    }
  }

  lemma OctalAlternative(value: int, precision: nat, width: nat, f: Flags)
    requires Proper('o', value, precision, f) && f.hash
    requires |Body('o', value, precision, width, f)| <= ROOM
    ensures Number('o', value, precision, width, f) == Body('o', value, precision, width, f)
  {
    hide Number, Start, Reverse, AltFlags, Body, Repeat, FirstFlags, Digits;
    AltFlagsAre('o', value, precision, width, f);
    StartIs('o', value, precision, f);
    OctalBody(value, precision, width, f);
    if AltFlags('o', value, precision, width, f).hash {
      OctalPrefixed(value, precision, width, f);
    } else {
      PlainNumber('o', value, precision, width, f);
    }
  }

  lemma OctalNumber(conv: char, value: int, precision: nat, width: nat, f: Flags)
    requires Proper(conv, value, precision, f) && conv == 'o'
    requires |Body(conv, value, precision, width, f)| <= ROOM
    ensures Number(conv, value, precision, width, f) == Body(conv, value, precision, width, f)
  {
    hide Number, Start, Reverse, AltFlags, Body, Repeat, FirstFlags, Digits;
    AltFlagsAre(conv, value, precision, width, f);
    StartIs(conv, value, precision, f);
    if !f.hash {
      BodyIs(conv, value, precision, width, f);
      PlainNumber(conv, value, precision, width, f);
    } else {
      OctalAlternative(value, precision, width, f);
    }
  }

  // ------------------------------------------------------------- the theorem

  /** The code's field: its number, with blanks on one side unless zeros pad it. */
  lemma CodeIs(conv: char, value: int, precision: nat, width: nat, f: Flags)
    requires Proper(conv, value, precision, f)
    ensures var number := Number(conv, value, precision, width, f);
            Code(conv, value, precision, width, f)
            == if ZeroPadded(f) then number
               else if f.left then number + Repeat(' ', width - |number|)
               else Repeat(' ', width - |number|) + number
  {
    hide Finalized, FirstDigits, Reverse, Repeat;
    var b, m, g := Base(conv), Magnitude(value), Settled(conv, f);
    var buf := Finalized(Start(conv, value, f), value < 0, b, precision, width, FirstFlags(m, b, g));
    assert Reverse(buf) == Number(conv, value, precision, width, f);
  }

  lemma Agrees(conv: char, value: int, precision: nat, width: nat, f: Flags)
    requires Proper(conv, value, precision, f) && |Body(conv, value, precision, width, f)| <= ROOM
    ensures Code(conv, value, precision, width, f) == Converted(conv, value, precision, width, f)
  {
    hide Number, Code, DigitText, Sign, Prefix;
    CodeIs(conv, value, precision, width, f);
    if conv == 'o' {
      OctalNumber(conv, value, precision, width, f);
    } else if conv == 'x' || conv == 'X' {
      HexNumber(conv, value, precision, width, f);
    } else {
      DecimalNumber(conv, value, precision, width, f);
    }
  }

  /** How many characters of a text are not blanks. */
  function Inked(s: seq<char>): nat {
    if |s| == 0 then 0 else (if s[0] == ' ' then 0 else 1) + Inked(s[1..])
  }

  lemma {:induction false} InkedAppend(a: seq<char>, b: seq<char>)
    ensures Inked(a + b) == Inked(a) + Inked(b)
  {
    if |a| == 0 {
      assert a + b == b;
    } else {
      assert (a + b)[1..] == a[1..] + b;
      InkedAppend(a[1..], b);
    }
  }

  lemma {:induction false} InkedAtMost(s: seq<char>)
    ensures Inked(s) <= |s|
  {
    if |s| == 0 {
    } else {
      InkedAtMost(s[1..]);
    }
  }

  lemma InkedOne(c: char)
    ensures Inked([c]) == if c == ' ' then 0 else 1
  {
    assert [c][1..] == [];
  }

  lemma {:induction false} InkedRepeat(c: char, n: int)
    ensures Inked(Repeat(c, n)) == if c == ' ' then 0 else |Repeat(c, n)|
  {
    if n <= 0 {
    } else {
      InkedAppend(Repeat(c, n - 1), [c]);
      InkedOne(c);
      InkedRepeat(c, n - 1);
    }
  }

  lemma InkedNone()
    ensures Inked([]) == 0
  {
  }

  lemma {:induction false} InkedDigits(v: nat, base: nat, upper: bool)
    requires base == 8 || base == 10 || base == 16
    ensures Inked(Digits(v, base, upper)) == |Digits(v, base, upper)|
    decreases v
  {
    hide DigitChar, Digit, Inked;
    if v == 0 {
      InkedNone();
    } else {
      var c := Digit(v % base, upper);
      InkedAppend(Digits(v / base, base, upper), [c]);
      InkedOne(c);
      InkedDigits(v / base, base, upper);
    }
  }

  lemma InkedDigitText(conv: char, value: int, precision: nat, f: Flags)
    requires IsConversion(conv)
    ensures Inked(DigitText(conv, value, precision, f)) == |DigitText(conv, value, precision, f)|
  {
    hide Digits, Inked, Repeat;
    var digits := Digits(Magnitude(value), Base(conv), conv == 'X');
    var n := (if f.precision then precision else 1) - |digits|;
    InkedRepeat('0', n);
    InkedDigits(Magnitude(value), Base(conv), conv == 'X');
    InkedAppend(Repeat('0', n), digits);
    InkedOne('0');
    InkedAppend(['0'], Repeat('0', n) + digits);
  }

  lemma InkedShort(s: seq<char>)
    requires |s| <= 2 && (|s| == 2 ==> s[0] != ' ' && s[1] != ' ')
    ensures Inked(s) == |s| - (if s == [' '] then 1 else 0)
  {
    if |s| == 2 {
      assert s == [s[0]] + [s[1]];
      InkedAppend([s[0]], [s[1]]);
      InkedOne(s[0]);
      InkedOne(s[1]);
    } else if |s| == 1 {
      InkedOne(s[0]);
      assert s == [s[0]];
    }
  }

  /** Besides the padding, only a blank sign is a blank. */
  lemma InkedBody(conv: char, value: int, precision: nat, width: nat, f: Flags)
    requires IsConversion(conv)
    ensures Inked(Body(conv, value, precision, width, f))
            == |Body(conv, value, precision, width, f)| - (if Sign(conv, value, f) == [' '] then 1 else 0)
  {
    hide Inked, Repeat, DigitText;
    var s, x, d := Sign(conv, value, f), Prefix(conv, value, f), DigitText(conv, value, precision, f);
    var z := if ZeroPadded(f) then Repeat('0', width - |s| - |x| - |d|) else [];
    InkedDigitText(conv, value, precision, f);
    assert Inked(z) == |z| by {
      InkedRepeat('0', width - |s| - |x| - |d|);
      InkedRepeat('0', 0);
      assert Repeat('0', 0) == [];
    }
    InkedAppend(s + x + z, d);
    InkedAppend(s + x, z);
    InkedAppend(s, x);
    InkedShort(s);
    InkedShort(x);
  }

  /** The code's number never has more than 32 characters. */
  lemma NumberBound(conv: char, value: int, precision: nat, width: nat, f: Flags)
    requires Proper(conv, value, precision, f)
    ensures |Number(conv, value, precision, width, f)| <= ROOM
  {
    hide Number, Start, Kept, AltFlags, Inner, Reverse;
    StartIs(conv, value, precision, f);
    NumberIs(conv, value, precision, width, f);
  }

  lemma InkedField(field: seq<char>, n: int, left: bool, core: seq<char>)
    requires field == if left then core + Repeat(' ', n) else Repeat(' ', n) + core
    ensures Inked(field) == Inked(core)
  {
    InkedRepeat(' ', n);
    InkedAppend(core, Repeat(' ', n));
    InkedAppend(Repeat(' ', n), core);
  }

  /** A body of more than 32 printing characters is out of the code's reach. */
  lemma TooLong(conv: char, value: int, precision: nat, width: nat, f: Flags)
    requires Proper(conv, value, precision, f) && Inked(Body(conv, value, precision, width, f)) > ROOM
    ensures Code(conv, value, precision, width, f) != Converted(conv, value, precision, width, f)
  {
    hide Inked, Body, Number, Code, Repeat;
    var body, number := Body(conv, value, precision, width, f), Number(conv, value, precision, width, f);
    CodeIs(conv, value, precision, width, f);
    NumberBound(conv, value, precision, width, f);
    InkedAtMost(number);
    InkedField(Converted(conv, value, precision, width, f), width - |body|, f.left, body);
    if !ZeroPadded(f) {
      InkedField(Code(conv, value, precision, width, f), width - |number|, f.left, number);
    }
  }

  lemma BlankNumber(conv: char, value: int, precision: nat, width: nat, f: Flags)
    requires Proper(conv, value, precision, f)
    requires Sign(conv, value, f) == [' '] && |Body(conv, value, precision, width, f)| == ROOM + 1
    ensures var number := Number(conv, value, precision, width, f);
            && |number| == ROOM && number[0] == '0'
            && Body(conv, value, precision, width, f) == [' '] + number
            && (if ZeroPadded(f) then width == ROOM + 1 else precision == ROOM)
  {
    hide Number, Start, Reverse, AltFlags, Body, Repeat, Padded, FirstFlags;
    var start := Start(conv, value, f);
    StartIs(conv, value, precision, f);
    BodyIs(conv, value, precision, width, f);
    AltFlagsAre(conv, value, precision, width, f);
    PlainNumber(conv, value, precision, width, f);
    RepeatFront('0', ROOM - 1 - |start|);
  }

  /** A blank sign that finds the buffer full is lost, which shows unless it would have stood
      among padding blanks. */
  lemma BlankSign(conv: char, value: int, precision: nat, width: nat, f: Flags)
    requires Proper(conv, value, precision, f)
    requires Sign(conv, value, f) == [' '] && |Body(conv, value, precision, width, f)| == ROOM + 1
    ensures Code(conv, value, precision, width, f) == Converted(conv, value, precision, width, f)
            <==> f.precision && precision == ROOM && !f.left && width > ROOM
  {
    hide Number, Body, Code, Sign;
    CodeIs(conv, value, precision, width, f);
    BlankNumber(conv, value, precision, width, f);
    var code, text := Code(conv, value, precision, width, f), Converted(conv, value, precision, width, f);
    if ZeroPadded(f) || (!f.left && width <= ROOM) {
      assert |code| < |text|;
    } else if f.left {
      assert code[0] != text[0];
    }
  }

  /** The code never writes more characters than the standard asks for. */
  lemma NeverLonger(conv: char, value: int, precision: nat, width: nat, f: Flags)
    requires Proper(conv, value, precision, f)
    ensures |Code(conv, value, precision, width, f)| <= |Converted(conv, value, precision, width, f)|
  {
    hide Code, Body, Number;
    if |Body(conv, value, precision, width, f)| <= ROOM {
      Agrees(conv, value, precision, width, f);
    } else {
      CodeIs(conv, value, precision, width, f);
      NumberBound(conv, value, precision, width, f);
    }
  }

  lemma BlankLength(conv: char, value: int, precision: nat, width: nat, f: Flags)
    requires Proper(conv, value, precision, f) && Sign(conv, value, f) == [' '] && precision == ROOM
    ensures |Body(conv, value, precision, width, f)| == ROOM + 1
  {
    hide Digits, Reverse, Start;
    BodyIs(conv, value, precision, width, f);
    StartIs(conv, value, precision, f);
  }

  /** print_integer writes what section 7.19.6.1 asks for exactly when the conversion fits. */
  lemma Conformance(conv: char, value: int, precision: nat, width: nat, f: Flags)
    requires Proper(conv, value, precision, f)
    ensures Code(conv, value, precision, width, f) == Converted(conv, value, precision, width, f)
            <==> FitsBuffer(conv, value, precision, width, f)
  {
    hide Code, Converted, Body, Sign;
    if |Body(conv, value, precision, width, f)| <= ROOM {
      Agrees(conv, value, precision, width, f);
    } else {
      InkedBody(conv, value, precision, width, f);
      if Sign(conv, value, f) == [' '] && precision == ROOM {
        BlankLength(conv, value, precision, width, f);
      }
      if Inked(Body(conv, value, precision, width, f)) > ROOM {
        TooLong(conv, value, precision, width, f);
      } else {
        BlankSign(conv, value, precision, width, f);
      }
    }
  }

  /** Enough for any value and flags: a precision up to 30, and a width up to 32 where zeros
      fill it. */
  lemma ConformsWithin(conv: char, value: int, precision: nat, width: nat, f: Flags)
    requires Proper(conv, value, precision, f)
    requires precision <= ROOM - 2 && (ZeroPadded(f) ==> width <= ROOM)
    ensures Code(conv, value, precision, width, f) == Converted(conv, value, precision, width, f)
  {
    hide Digits, Reverse, Start, Code, Converted, Repeat;
    StartIs(conv, value, precision, f);
    if f.hash && conv == 'o' {
      OctalBody(value, precision, width, f);
    } else {
      BodyIs(conv, value, precision, width, f);
    }
    Agrees(conv, value, precision, width, f);
  }

  lemma AtLeast(conv: char, value: int, precision: nat, width: nat, f: Flags)
    ensures |Converted(conv, value, precision, width, f)| >= width
    ensures f.precision ==> |Converted(conv, value, precision, width, f)| >= precision
  {
    hide Digits;
  }

  lemma AtMost(conv: char, value: int, precision: nat, width: nat, f: Flags)
    requires Proper(conv, value, precision, f)
    ensures |Code(conv, value, precision, width, f)| <= if width < ROOM then ROOM else width
  {
    hide Code, Number;
    CodeIs(conv, value, precision, width, f);
    NumberBound(conv, value, precision, width, f);
  }

  /** With the numbers as they are written: the code's are modulo 2^32, and no number beyond
      can come out right. */
  lemma WrittenConformance(conv: char, value: int, precision: nat, width: nat, f: Flags)
    requires Proper(conv, value, precision, f)
    ensures var code := Code(conv, value, precision % UINT, width % UINT, f);
            var text := Converted(conv, value, precision, width, f);
            && (code == text <==> width < UINT && precision < UINT && FitsBuffer(conv, value, precision, width, f))
            && |code| <= |text|
  {
    hide Code, Converted, FitsBuffer;
    AtLeast(conv, value, precision, width, f);
    AtMost(conv, value, precision % UINT, width % UINT, f);
    if width < UINT && precision < UINT {
      Conformance(conv, value, precision, width, f);
      NeverLonger(conv, value, precision, width, f);
    }
  }

  lemma StartOfOne(f: Flags)
    requires f == NO_FLAGS.(precision := true)
    ensures Start('d', 1, f) == ['1'] && Reverse(['1']) == ['1']
  {
    assert RevDigits(1, 10, false, 32) == [DigitChar(1, false)] + RevDigits(0, 10, false, 31);
  }

  /** One that does not fit: "%.33d" of 1 prints 32 digits. */
  lemma Precision33()
    ensures var f := NO_FLAGS.(precision := true);
            && Code('d', 1, 33, 0, f) == Repeat('0', 31) + ['1']
            && Converted('d', 1, 33, 0, f) == Repeat('0', 32) + ['1']
            && Code('d', 1, 33, 0, f) != Converted('d', 1, 33, 0, f) && !FitsBuffer('d', 1, 33, 0, f)
  {
    hide Number, Code, AltFlags;
    var f := NO_FLAGS.(precision := true);
    StartOfOne(f);
    BodyIs('d', 1, 33, 0, f);
    AltFlagsAre('d', 1, 33, 0, f);
    PlainNumber('d', 1, 33, 0, f);
    CodeIs('d', 1, 33, 0, f);
    assert Repeat(' ', -32) == [] && Repeat(' ', -33) == [];
  }
}
